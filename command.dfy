/**
 * The argument list handed to the encoder: a fixed prefix naming the input,
 * the playback-speed filter, the frame rate, codec, preset and quality, then
 * an optional output-size override chosen from the resolution label, and the
 * output path last.
 */
module EncoderCommand {
  import opened Wrappers
  import opened Numerals

  /**
   * One character of Python's str.lower(), as far as comparing the result with
   * an ASCII word goes: 'A'..'Z' and the Kelvin sign (U+212A) are the only characters
   * whose lower case is an ASCII letter; every other character either lowers
   * to something that is not ASCII or is left as it is.
   */
  function LowerChar(c: char): char {
    if 'A' <= c <= 'Z' then (c as int + 32) as char
    else if c == '\U{212A}' then 'k'
    else c
  }

  function Lower(s: string): (r: string)
    ensures |r| == |s|
    ensures forall i :: 0 <= i < |s| ==> r[i] == LowerChar(s[i])
  {
    if s == [] then [] else [LowerChar(s[0])] + Lower(s[1..])
  }

  /** ASCII upper-casing of one character: 'a'..'z' become 'A'..'Z', the rest stay. */
  function UpperChar(c: char): char {
    if 'a' <= c <= 'z' then (c as int - 32) as char else c
  }

  /** ASCII upper-casing of a text. */
  function Upper(s: string): (r: string)
    ensures |r| == |s|
    ensures forall i :: 0 <= i < |s| ==> r[i] == UpperChar(s[i])
  {
    if s == [] then [] else [UpperChar(s[0])] + Upper(s[1..])
  }

  /** The sizes offered for each lower-cased resolution label. */
  const Resolutions: map<string, string> :=
    map["720p" := "1280x720", "1080p" := "1920x1080", "1440p" := "2560x1440", "4k" := "3840x2160"]

  /** The size used for a label that is not in the table. */
  const FallbackSize: string := "1920x1080"

  /** The `-s` value for a resolution label, or None for "original" in any case. */
  function SizeOverride(resolution: string): (r: Option<string>)
    ensures r.None? <==> Lower(resolution) == "original"
    ensures r.Some? ==> r.value in Resolutions.Values
  {
    var key := Lower(resolution);
    if key == "original" then None
    else
      assert Resolutions["1080p"] == FallbackSize;
      Some(if key in Resolutions then Resolutions[key] else FallbackSize)
  }

  /** Every label the form offers with a size maps to the size the table gives it. */
  lemma OfferedLabels()
    ensures SizeOverride("720p") == Some("1280x720")
    ensures SizeOverride("1080p") == Some("1920x1080")
    ensures SizeOverride("1440p") == Some("2560x1440")
    ensures SizeOverride("4K") == Some("3840x2160")
  {
    LowerCased("720p", "720p");
    LowerCased("1080p", "1080p");
    LowerCased("1440p", "1440p");
    LowerCased("4K", "4k");
  }

  /** The "Original" entry asks for no size override. */
  lemma OriginalLabel()
    ensures SizeOverride("Original") == None
  {
    LowerCased("Original", "original");
  }

  /** A label that is not in the table, such as "8K", falls back to 1920x1080. */
  lemma UnknownLabel()
    ensures SizeOverride("8K") == Some(FallbackSize)
  {
    LowerCased("8K", "8k");
  }

  /** The resolution lookup sees the label `text` as `key`. */
  lemma LowerCased(text: string, key: string)
    requires |text| == |key| && forall i :: 0 <= i < |text| ==> LowerChar(text[i]) == key[i]
    ensures SizeOverride(text) == if key == "original" then None
      else Some(if key in Resolutions then Resolutions[key] else FallbackSize)
  {
    assert Lower(text) == key;
  }

  /**
   * Python lower-cases the Kelvin sign to 'k', so a "4K" typed with it selects
   * the 4K size too.
   */
  lemma KelvinSignLabel()
    ensures SizeOverride("4\U{212A}") == Some("3840x2160")
  {
    LowerCased("4\U{212A}", "4k");
  }

  lemma {:induction false} LowerUpper(s: string)
    ensures Lower(Upper(s)) == Lower(s)
  {
    if s != [] {
      LowerUpper(s[1..]);
      assert Upper(s)[1..] == Upper(s[1..]);
    }
  }

  /** The lookup ignores case: writing a label in capitals selects the same size. */
  lemma OverrideIgnoresCase(resolution: string)
    ensures SizeOverride(Upper(resolution)) == SizeOverride(resolution)
  {
    LowerUpper(resolution);
  }

  /** The prefix of the speed filter; the speed follows it. */
  const FilterPrefix: string := "setpts=PTS/"

  /** The options between the speed filter and the quality value, in order. */
  const FixedOptions: seq<string> := ["-an", "-r", "30", "-c:v", "libx264", "-preset", "veryfast", "-crf"]

  /** What an encoder command asks for. */
  datatype EncodeArgs = EncodeArgs(
    ffmpeg: string, input: string, speed: string, crf: string, size: Option<string>, output: string)

  /** Reads an argument list of the shape the job builds back into what it asks for. */
  function ReadCommand(cmd: seq<string>): Option<EncodeArgs> {
    if |cmd| < 15 || cmd[1] != "-i" || cmd[3] != "-filter:v" || cmd[5..13] != FixedOptions then None
    else if |cmd[4]| < |FilterPrefix| || cmd[4][..|FilterPrefix|] != FilterPrefix then None
    else
      var speed := cmd[4][|FilterPrefix|..];
      if |cmd| == 15 then Some(EncodeArgs(cmd[0], cmd[2], speed, cmd[13], None, cmd[14]))
      else if |cmd| == 17 && cmd[14] == "-s" then Some(EncodeArgs(cmd[0], cmd[2], speed, cmd[13], Some(cmd[15]), cmd[16]))
      else None
  }

  /** Two commands that read back to the same request are the same command. */
  lemma ReadCommandInjective(c1: seq<string>, c2: seq<string>)
    requires ReadCommand(c1).Some? && ReadCommand(c1) == ReadCommand(c2)
    ensures c1 == c2
  {
    var a := ReadCommand(c1).value;
    assert |c1| == |c2|;
    assert c1[5..13] == c2[5..13];
    assert c1[4] == c2[4] by {
      assert c1[4] == c1[4][..|FilterPrefix|] + c1[4][|FilterPrefix|..];
      assert c2[4] == c2[4][..|FilterPrefix|] + c2[4][|FilterPrefix|..];
    }
    forall k | 0 <= k < |c1| ensures c1[k] == c2[k] {
      if 5 <= k < 13 {
        assert c1[k] == c1[5..13][k - 5];
      }
    }
  }

  /** In a command that reads back, each flag stands right before its value. */
  lemma FlagsBeforeValues(cmd: seq<string>)
    requires ReadCommand(cmd).Some?
    ensures var a := ReadCommand(cmd).value;
      cmd[1] == "-i" && cmd[2] == a.input && cmd[3] == "-filter:v" && cmd[4] == FilterPrefix + a.speed &&
      cmd[12] == "-crf" && cmd[13] == a.crf && cmd[|cmd| - 1] == a.output &&
      (a.size.Some? ==> |cmd| == 17 && cmd[14] == "-s" && cmd[15] == a.size.value) &&
      (a.size.None? ==> |cmd| == 15)
  {
    assert cmd[12] == cmd[5..13][7];
    assert cmd[4] == cmd[4][..|FilterPrefix|] + cmd[4][|FilterPrefix|..];
  }

  /**
   * Builds the encoder command: the fourteen fixed arguments, then `-s` and
   * a size unless the resolution is "original", then the output path.
   */
  method BuildCommand(ffmpeg: string, input: string, speed: string, crf: int, resolution: string, output: string)
    returns (cmd: seq<string>)
    ensures ReadCommand(cmd) == Some(EncodeArgs(ffmpeg, input, speed, ShowInt(crf), SizeOverride(resolution), output))
    ensures |cmd| == if SizeOverride(resolution).Some? then 17 else 15
    ensures cmd[4] == FilterPrefix + speed && cmd[|cmd| - 1] == output
  {
    cmd := [
      ffmpeg, "-i", input,
      "-filter:v", FilterPrefix + speed,
      "-an", "-r", "30", "-c:v", "libx264",
      "-preset", "veryfast", "-crf", ShowInt(crf)
    ];
    assert cmd[5..13] == FixedOptions;
    var key := Lower(resolution);
    if key != "original" {
      cmd := cmd + ["-s", if key in Resolutions then Resolutions[key] else FallbackSize];
      assert cmd[5..13] == FixedOptions;
    }
    cmd := cmd + [output];
    assert cmd[5..13] == FixedOptions;
    assert cmd[4][..|FilterPrefix|] == FilterPrefix;
  }
}
