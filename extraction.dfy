/**
 * `extract_audio` and the process-wide stopwatch it reports to. The
 * stopwatch is kept as the sequence of start/stop calls it receives; what
 * it measures and prints is not part of this model.
 */
module Extraction {
  import opened Paths

  /** A call made on the stopwatch. */
  datatype TimerEvent = Started(name: string) | Stopped(name: string)

  /** The global `stopwatch`: the record of the calls made on it, oldest first. */
  class Stopwatch {
    var events: seq<TimerEvent>

    constructor ()
      ensures events == []
    {
      events := [];
    }

    /** `stopwatch.start(name)`. */
    method Start(name: string)
      modifies this
      ensures events == old(events) + [Started(name)]
    {
      events := events + [Started(name)];
    }

    /** `stopwatch.stop(name)`. */
    method Stop(name: string)
      modifies this
      ensures events == old(events) + [Stopped(name)]
    {
      events := events + [Stopped(name)];
    }
  }

  /** The label `extract_audio` times itself under. */
  const AudioExtractionLabel := "Audio Extraction"

  /** How the ffmpeg run went: it finished, or it raised (the error is only logged). */
  datatype FfmpegOutcome = Finished | Raised

  /**
   * `extract_audio(video_path)`, with the outcome of the ffmpeg run given
   * as `ffmpeg`. It always returns the derived name "audio-{stem}.mp3",
   * whether or not ffmpeg raised, and brackets its work with one start and
   * one stop of the "Audio Extraction" timer on both paths.
   */
  method ExtractAudio(stopwatch: Stopwatch, videoPath: string, ffmpeg: FfmpegOutcome)
    returns (audioPath: string)
    modifies stopwatch
    ensures audioPath == ExtractedAudioName(videoPath)
    ensures stopwatch.events == old(stopwatch.events) + [Started(AudioExtractionLabel), Stopped(AudioExtractionLabel)]
  {
    stopwatch.Start(AudioExtractionLabel);
    audioPath := ExtractedAudioName(videoPath);
    // A raising ffmpeg run is only logged: `ffmpeg` decides nothing below.
    stopwatch.Stop(AudioExtractionLabel);
  }
}
