/**
 * The background encode job and the Start button that launches it: wait for
 * the input file to stop growing, work out the playback speed from either the
 * speed multiplier or the target output length, and hand the encoder its
 * command. The form's fields are plain inputs here; the file system, the
 * clock and the encoder process are replaced by what they would report.
 */
module EncodeJob {
  import opened Wrappers
  import opened Numerals
  import Poller
  import TargetDuration
  import DurationProbe
  import EncoderCommand

  /** How the speed is given: as a multiplier, or as a target output length. */
  datatype SpeedEntry =
    | Multiplier(parsed: Option<real>)  // the value float() reads from the speed field; None when it raises
    | TargetLength(text: string)        // the target-length field, "H:M:S"

  /** The rest of the form, as the job reads it. */
  datatype Settings = Settings(
    ffmpeg: string,      // the encoder's path
    outputPath: string,  // the output folder joined with the timestamped file name
    crf: int,
    resolution: string,
    speed: SpeedEntry)

  /** Why the job stopped without encoding. */
  datatype Abort = InvalidSpeed | InvalidTargetLength

  datatype Outcome =
    | InvalidPath                                // Start refused: not in file mode, or no such file
    | StillWaiting                               // the file never settled within the samples given
    | Aborted(reason: Abort)
    | Encoded(cmd: seq<string>, succeeded: bool) // the command run, and whether the encoder exited with 0

  /**
   * The playback speed. A multiplier is used as read; the probe is not run.
   * A target length is parsed, the video is probed, and the speed is the
   * probed length divided by the target; a target that does not parse, or
   * that totals zero seconds, stops the job.
   */
  function ComputeSpeed(entry: SpeedEntry, probedSecs: real): (r: Result<real, Abort>)
    ensures entry.Multiplier? ==>
      (r.Ok? <==> entry.parsed.Some?) && (r.Ok? ==> r.value == entry.parsed.value) && (r.Err? ==> r.error == InvalidSpeed)
    ensures entry.TargetLength? ==>
      var target := TargetDuration.ParseTarget(entry.text);
      (r.Ok? <==> target.Some? && target.value != 0) &&
      (r.Ok? ==> r.value == Ratio(probedSecs, target.value)) &&
      (r.Err? ==> r.error == InvalidTargetLength)
  {
    match entry
    case Multiplier(parsed) =>
      if parsed.Some? then Ok(parsed.value) else Err(InvalidSpeed)
    case TargetLength(text) =>
      var target := TargetDuration.ParseTarget(text);
      if target.None? || target.value == 0 then Err(InvalidTargetLength)
      else Ok(Ratio(probedSecs, target.value))
  }

  /** `video_secs / target_secs`: the speed at which the video lasts the target length. */
  function Ratio(videoSecs: real, targetSecs: int): (speed: real)
    requires targetSecs != 0
    ensures speed * targetSecs as real == videoSecs
  {
    videoSecs / targetSecs as real
  }

  /** With a multiplier the probe's output plays no part. */
  lemma MultiplierIgnoresProbe(entry: SpeedEntry, probedSecs1: real, probedSecs2: real)
    requires entry.Multiplier?
    ensures ComputeSpeed(entry, probedSecs1) == ComputeSpeed(entry, probedSecs2)
  {
  }

  /**
   * A ten-minute video and a target of "00:00:10" give a speed of 60, whatever
   * follows the header on FFmpeg's line.
   */
  lemma TenMinutesToTenSeconds(rest: string)
    requires rest == [] || !IsDigit(rest[0])
    ensures ComputeSpeed(TargetLength("00:00:10"), DurationProbe.ProbeSeconds("  Duration: 00:10:00.00" + rest))
      == Ok(60.0)
  {
    TenMinuteHeader(rest);
    TenSecondText();
    TenSecondTarget("00", "10");
  }

  lemma TenSecondText()
    ensures "00:00:10" == "00" + ":" + "00" + ":" + "10"
  {
  }

  lemma TenMinuteHeader(rest: string)
    requires rest == [] || !IsDigit(rest[0])
    ensures DurationProbe.ProbeSeconds("  Duration: 00:10:00.00" + rest) == 600.0
  {
    TenMinuteText();
    TenMinutes("00", "10");
    DurationProbe.ProbeHeader("  ", "00", "10", "00", "00", rest);
  }

  lemma TenMinuteText()
    ensures "  Duration: 00:10:00.00" == "  " + DurationProbe.Header("00", "10", "00", "00")
  {
  }

  lemma TenMinutes(zero: string, ten: string)
    requires zero == "00" && ten == "10"
    ensures DurationProbe.Seconds(zero, ten, zero, zero) == 600.0
  {
    assert DigitsValue(ten) == 10 by {
      assert ten[..1] == "1" && ten[1] == '0';
      assert DigitsValue("1") == 1 by { assert "1"[..0] == ""; }
    }
    assert DigitsValue(zero) == 0 by {
      assert zero[..1] == "0" && zero[1] == '0';
      assert DigitsValue("0") == 0 by { assert "0"[..0] == ""; }
    }
  }

  lemma TenSecondTarget(zero: string, ten: string)
    requires zero == "00" && ten == "10"
    ensures TargetDuration.ParseTarget(zero + ":" + zero + ":" + ten) == Some(10)
  {
    assert TargetDuration.ParseInt(zero) == Some(0) by {
      assert DigitsValue(zero) == 0 by { assert zero[..1] == "0"; }
      TargetDuration.ParseIntDigits(zero);
    }
    assert TargetDuration.ParseInt(ten) == Some(10) by {
      assert DigitsValue(ten) == 10 by {
        assert ten[..1] == "1" && ten[1] == '0';
        assert DigitsValue("1") == 1 by { assert "1"[..0] == ""; }
      }
      TargetDuration.ParseIntDigits(ten);
    }
    TargetDuration.ParseTargetFields(zero, zero, ten, 0, 0, 10);
  }

  /**
   * What the encode job for `input` ends with: it waits for as long as the file
   * is not stable, stops when the speed cannot be worked out, and otherwise
   * runs the command built from the form, the input and the speed.
   */
  predicate JobOutcome(input: string, settings: Settings, samples: seq<Poller.Sample>, probeText: string,
                       render: real -> string, encoderSucceeded: bool, o: Outcome)
  {
    var speed := ComputeSpeed(settings.speed, DurationProbe.ProbeSeconds(probeText));
    o != InvalidPath &&
    (o.StillWaiting? <==> forall k :: 0 <= k <= |samples| ==> Poller.After(samples[..k]).stable < Poller.Threshold) &&
    (o.Aborted? <==> !o.StillWaiting? && speed.Err?) &&
    (o.Aborted? ==> o.reason == speed.error) &&
    (o.Encoded? ==>
      speed.Ok? &&
      o.succeeded == encoderSucceeded &&
      EncoderCommand.ReadCommand(o.cmd) == Some(EncoderCommand.EncodeArgs(
        settings.ffmpeg, input, render(speed.value),
        ShowInt(settings.crf), EncoderCommand.SizeOverride(settings.resolution), settings.outputPath)))
  }

  /**
   * The encode job for one input file: wait until the file is stable, compute
   * the speed, build the command and run it. `render` is how the speed is
   * written into the filter, `encoderSucceeded` whether the encoder exits with 0.
   */
  method EncodeVideo(input: string, settings: Settings, samples: seq<Poller.Sample>, probeText: string,
                     render: real -> string, encoderSucceeded: bool)
    returns (o: Outcome)
    ensures JobOutcome(input, settings, samples, probeText, render, encoderSucceeded, o)
  {
    var stopped, ticks := Poller.WaitUntilStable(samples);
    if !stopped {
      assert samples[..|samples|] == samples;
      return StillWaiting;
    }
    var speed := ComputeSpeed(settings.speed, DurationProbe.ProbeSeconds(probeText));
    if speed.Err? {
      return Aborted(speed.error);
    }
    var cmd := EncoderCommand.BuildCommand(
      settings.ffmpeg, input, render(speed.value), settings.crf, settings.resolution, settings.outputPath);
    o := Encoded(cmd, encoderSucceeded);
  }

  /**
   * The Start button: the job is launched only in file mode and only for a
   * path that names an existing file.
   */
  method StartProcess(mode: string, input: string, inputIsFile: bool, settings: Settings,
                      samples: seq<Poller.Sample>, probeText: string, render: real -> string, encoderSucceeded: bool)
    returns (o: Outcome)
    ensures o.InvalidPath? <==> !(mode == "file" && inputIsFile)
    ensures mode == "file" && inputIsFile ==> JobOutcome(input, settings, samples, probeText, render, encoderSucceeded, o)
  {
    if mode == "file" && inputIsFile {
      o := EncodeVideo(input, settings, samples, probeText, render, encoderSucceeded);
    } else {
      o := InvalidPath;
    }
  }

  /** A multiplier of 2.5 at 1080p and quality 20 asks for 1920x1080 and -crf 20. */
  method SpeedModeScenario(render: real -> string)
  {
    var samples := seq(6, _ => Poller.Size(1000));
    var settings := Settings("ffmpeg", "out.mp4", 20, "1080p", Multiplier(Some(2.5)));
    assert samples[..6] == samples && Poller.After(samples[..6]).stable == Poller.Threshold by {
      Poller.SixEqualReadsStop(1000);
    }
    assert ShowInt(20) == "20";
    EncoderCommand.LowerCased("1080p", "1080p");
    var o := EncodeVideo("in.mp4", settings, samples, "", render, true);
    assert o.Encoded?;
    var args := EncoderCommand.ReadCommand(o.cmd).value;
    assert args.crf == "20" && args.size == Some("1920x1080");
    EncoderCommand.FlagsBeforeValues(o.cmd);
    assert o.cmd[12] == "-crf" && o.cmd[13] == "20";
    assert o.cmd[14] == "-s" && o.cmd[15] == "1920x1080";
  }

  /** In watch mode Start never launches the job. */
  method WatchModeScenario(settings: Settings, samples: seq<Poller.Sample>, probeText: string, render: real -> string)
  {
    var o := StartProcess("watch", "clip.mp4", true, settings, samples, probeText, render, true);
    assert o == InvalidPath;
  }
}
