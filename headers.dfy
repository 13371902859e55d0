/** Request headers and `getCoolHeader`: a header is usable only when the
    request carries it exactly once. */
module Headers {
  import opened Base

  /** Go's `http.Header`: each (canonical) name maps to the list of values
      received under it, in order. */
  type Headers = map<string, seq<Bytes>>

  const SIGNATURE_HEADER: string := "Twitch-Eventsub-Message-Signature"
  const TIMESTAMP_HEADER: string := "Twitch-Eventsub-Message-Timestamp"
  const ID_HEADER: string := "Twitch-Eventsub-Message-Id"
  const TYPE_HEADER: string := "Twitch-Eventsub-Message-Type"

  /** The two errors of `getCoolHeader`. The second is reported for any
      count of values other than one, including none. */
  datatype HeaderError = MissingHeader(name: string) | TooManyHeaders

  /** `getCoolHeader(name, r)`: the single value of header `name`. */
  function GetCoolHeader(h: Headers, name: string): (r: Result<Bytes, HeaderError>)
    ensures r.Success? <==> name in h && |h[name]| == 1
    ensures r.Success? ==> r.value == h[name][0]
    ensures name !in h ==> r == Failure(MissingHeader(name))
    ensures name in h && |h[name]| != 1 ==> r == Failure(TooManyHeaders)
  {
    if name !in h then Failure(MissingHeader(name))
    else if |h[name]| != 1 then Failure(TooManyHeaders)
    else Success(h[name][0])
  }
}
