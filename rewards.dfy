/** The reward router of `handleWebhook`: the reward title picks at most
    one action, by exact and case-sensitive comparison, and the parameters
    of that action are derived from the user's free text. */
module Rewards {
  import opened Base
  import Crc32
  import Decimal

  const LIGHTS: string := "lights"
  const END_STREAM: string := "end the stream"
  const SILENCE: string := "silence me"
  const SIMP_BUCKS: string := "SimpBucks Premium"
  const SCROLLO: string := "scrollo"

  /** The two bulbs resolved at startup, in the order of the source's
      `[]*golifx.Bulb{bedBulb, ceilingBulb}`. */
  datatype Bulb = BedBulb | CeilingBulb

  /** `golifx.HSBK`; every field is a `uint16`. */
  datatype Hsbk = Hsbk(hue: nat, saturation: nat, brightness: nat, kelvin: nat)

  /** `bulb.SetColorState(col, 1)`. */
  datatype LightCommand = LightCommand(bulb: Bulb, color: Hsbk, duration: nat)

  /** The environment of a launched command: `cmd.Env` left nil inherits the
      server's environment; otherwise it is `os.Environ()` plus `extra`. */
  datatype Env = Inherited | InheritedPlus(extra: seq<string>)

  /** `exec.Command(path, args...)`, launched through the error group. */
  datatype Command = Command(path: string, args: seq<string>, env: Env)

  /** What one notification asks for. `Scrollo` is carried out on the
      cache (module Scrollo); the others are handed to the bulb or to the
      process launcher and are only recorded here. */
  datatype Action =
    | NoAction
    | SetColor(light: LightCommand)
    | Launch(cmd: Command)
    | Scrollo(text: string)

  /** Go's conversion `uint16(n)`: the value modulo 2^16. */
  function Uint16(n: nat): (r: nat)
    ensures r < 0x10000
    ensures n < 0x10000 ==> r == n
  {
    n % 0x10000
  }

  /** The number behind the `lights` reward: the user input read by
      `strconv.ParseUint(params, 10, 64)`, or, when that fails, the
      CRC-32 of the input's bytes widened to `uint64`. */
  function LightsNumber(input: string): (n: nat)
    ensures n <= Decimal.MAX_UINT64
  {
    match Decimal.ParseUint(Utf8(input))
    case Success(v) => v
    case Failure(_) => Crc32.Checksum(Utf8(input)) as int
  }

  /** Index into the two bulbs: `(number / 65535) % 2`. */
  function WhichBulb(n: nat): (i: nat)
    ensures i == 0 || i == 1
  {
    (n / 65535) % 2
  }

  function BulbAt(i: nat): Bulb
    requires i < 2
  {
    if i == 0 then BedBulb else CeilingBulb
  }

  /** The `lights` branch: full saturation and brightness at 3200 K on the
      selected bulb, with hue `number % 65535`, which always fits the
      `uint16` it is converted to. */
  function Lights(input: string): (c: LightCommand)
    ensures c.color.hue < 65535 && c.color.hue == LightsNumber(input) % 65535
    ensures c.bulb == BedBulb <==> (LightsNumber(input) / 65535) % 2 == 0
    ensures c.color.saturation == 65535 && c.color.brightness == 65535
    ensures c.color.kelvin == 3200 && c.duration == 1
  {
    var number := LightsNumber(input);
    var hue := number % 65535;
    LightCommand(BulbAt(WhichBulb(number)), Hsbk(Uint16(hue), 65535, 65535, 3200), 1)
  }

  /** The number exactly: the value of a non-empty run of ASCII digits
      (leading zeros allowed) that fits in 64 bits, and otherwise, including
      an all-digit input above 2^64 - 1, the checksum. */
  lemma LightsNumberExact(input: string)
    ensures var b := Utf8(input);
      |b| > 0 && Decimal.AllDigits(b) && Decimal.Horner(0, b) <= Decimal.MAX_UINT64 ==>
        LightsNumber(input) == Decimal.Horner(0, b)
    ensures var b := Utf8(input);
      !(|b| > 0 && Decimal.AllDigits(b) && Decimal.Horner(0, b) <= Decimal.MAX_UINT64) ==>
        LightsNumber(input) == Crc32.Checksum(b) as int
  {
  }

  /** Decimal text that fits in 64 bits is taken at face value. */
  lemma LightsNumberOfDecimal(n: nat)
    requires n <= Decimal.MAX_UINT64
    ensures LightsNumber(Decimal.FormatUint(n)) == n
  {
    Decimal.ParseFormat(n);
  }

  /** Input holding anything but ASCII digits, and empty input, fall back
      to the checksum. */
  lemma LightsNumberOfText(input: string)
    requires |input| == 0 || exists i :: 0 <= i < |input| && !('0' <= input[i] <= '9')
    ensures LightsNumber(input) == Crc32.Checksum(Utf8(input)) as int
  {
    if Decimal.ParseUint(Utf8(input)).Success? {
      DigitsOnly(input);
    }
  }

  /** Digits are the only characters whose encoding is an ASCII digit. */
  lemma {:induction false} DigitsOnly(s: string)
    requires Decimal.AllDigits(Utf8(s))
    ensures forall i :: 0 <= i < |s| ==> '0' <= s[i] <= '9'
  {
    if |s| > 0 {
      var e := EncodeRune(s[0]);
      assert Utf8(s) == e + Utf8(s[1..]);
      assert Decimal.IsDigit(Utf8(s)[0]) && Utf8(s)[0] == e[0];
      assert Decimal.AllDigits(Utf8(s[1..])) by {
        forall i | 0 <= i < |Utf8(s[1..])| ensures Decimal.IsDigit(Utf8(s[1..])[i]) {
          assert Utf8(s[1..])[i] == Utf8(s)[|e| + i];
        }
      }
      DigitsOnly(s[1..]);
      forall i | 0 <= i < |s| ensures '0' <= s[i] <= '9' {
        if i > 0 { assert s[i] == s[1..][i - 1]; }
      }
    }
  }

  /** A number below 65535 is the hue itself, on the bed bulb. */
  lemma SmallNumberOnBedBulb(input: string)
    requires LightsNumber(input) < 65535
    ensures Lights(input).bulb == BedBulb
    ensures Lights(input).color.hue == LightsNumber(input)
  {
  }

  /** `lights` with input `100` sets hue 100 on the bed bulb. */
  lemma LightsHundred()
    ensures Lights("100").bulb == BedBulb && Lights("100").color.hue == 100
  {
    assert Decimal.FormatUint(100) == "100";
    LightsNumberOfDecimal(100);
  }

  /** The sound of `SimpBucks Premium` for a draw of `rand.Intn(10)`. */
  function SimpSound(draw: nat): (sound: string)
    requires draw < 10
    ensures sound == "bark.mp3" <==> draw == 5
    ensures sound == "bark.mp3" || sound == "woof.mp3"
  {
    if draw == 5 then "bark.mp3" else "woof.mp3"
  }

  /** The if/else chain on the reward title. */
  function Route(title: string, input: string, draw: nat): (a: Action)
    requires draw < 10
    ensures a == NoAction <==>
              title != LIGHTS && title != END_STREAM && title != SILENCE &&
              title != SIMP_BUCKS && title != SCROLLO
    ensures title == LIGHTS ==> a == SetColor(Lights(input))
    ensures title == END_STREAM ==> a == Launch(Command("killall", ["obs"], Inherited))
    ensures title == SILENCE ==> a == Launch(Command("./silencethot.sh", [], Inherited))
    ensures title == SIMP_BUCKS ==>
              a == Launch(Command("play", [SimpSound(draw)], InheritedPlus(["AUDIODEV=hw:1,0"])))
    ensures title == SCROLLO ==> a == Scrollo(input)
  {
    if title == LIGHTS then
      SetColor(Lights(input))
    else if title == END_STREAM then
      Launch(Command("killall", ["obs"], Inherited))
    else if title == SILENCE then
      Launch(Command("./silencethot.sh", [], Inherited))
    else if title == SIMP_BUCKS then
      Launch(Command("play", [SimpSound(draw)], InheritedPlus(["AUDIODEV=hw:1,0"])))
    else if title == SCROLLO then
      Scrollo(input)
    else
      NoAction
  }

  /** `SimpBucks Premium` plays `bark.mp3` exactly when the draw is 5, and
      `woof.mp3` otherwise, on audio device `hw:1,0`. */
  lemma SimpBucksSound(input: string, draw: nat)
    requires draw < 10
    ensures Route(SIMP_BUCKS, input, draw).Launch?
    ensures Route(SIMP_BUCKS, input, draw).cmd.args == [if draw == 5 then "bark.mp3" else "woof.mp3"]
    ensures Route(SIMP_BUCKS, input, draw).cmd.env == InheritedPlus(["AUDIODEV=hw:1,0"])
  {
  }

  /** Titles differing only in case are different titles. */
  lemma TitlesAreCaseSensitive(input: string, draw: nat)
    requires draw < 10
    ensures Route("Lights", input, draw) == NoAction
    ensures Route("Scrollo", input, draw) == NoAction
  {
  }
}
