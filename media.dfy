/**
 * `is_media_file` and `get_media_files`: classifying a file by the first
 * stream ffprobe reports, and collecting the media files of a directory
 * walk and/or a single file.
 */
module Media {
  import opened Wrappers
  import opened Paths

  /**
   * What `ffmpeg.probe` yields for a file: it raised (unreadable,
   * unsupported, or the reply lacked the expected keys), or the
   * `codec_type` of each stream in order.
   */
  datatype ProbeResult = ProbeFailed | Probed(codecTypes: seq<string>)

  /** The `(valid, audio)` pair `is_media_file` returns. */
  datatype Classification = Classification(valid: bool, audio: bool)

  /** A `(file_path, is_audio)` entry of the list `get_media_files` returns. */
  datatype MediaCandidate = MediaCandidate(path: string, isAudio: bool)

  /** One `(root, dirs, files)` triple yielded by `os.walk`; the sub-directory names play no part. */
  datatype WalkEntry = WalkEntry(root: string, files: seq<string>)

  /**
   * `is_media_file`: a file is media when it has a stream and the first
   * one is audio or video, and audio when that stream is audio; a failed
   * probe gives (False, False). Audio implies valid.
   */
  function IsMediaFile(probe: ProbeResult): (c: Classification)
    ensures c.audio ==> c.valid
    ensures probe.ProbeFailed? ==> !c.valid && !c.audio
    ensures c.valid <==> probe.Probed? && |probe.codecTypes| > 0
                         && (probe.codecTypes[0] == "audio" || probe.codecTypes[0] == "video")
    ensures c.audio <==> probe.Probed? && |probe.codecTypes| > 0 && probe.codecTypes[0] == "audio"
  {
    match probe
    case ProbeFailed => Classification(false, false)
    case Probed(types) =>
      if |types| > 0 && (types[0] == "audio" || types[0] == "video") then
        Classification(true, types[0] == "audio")
      else
        Classification(false, false)
  }

  /** Python truthiness of an optional path: given and non-empty. */
  predicate Given(arg: Option<string>)
  {
    arg.Some? && arg.value != ""
  }

  /** The paths `os.path.join(root, f)` for the given files of one directory, in order. */
  function JoinAll(root: string, files: seq<string>): seq<string>
  {
    if files == [] then [] else JoinAll(root, files[..|files| - 1]) + [PathJoin(root, files[|files| - 1])]
  }

  function EntryPaths(e: WalkEntry): seq<string>
  {
    JoinAll(e.root, e.files)
  }

  /** All file paths of a walk, in walk order. */
  function WalkPaths(walk: seq<WalkEntry>): seq<string>
  {
    if walk == [] then [] else WalkPaths(walk[..|walk| - 1]) + EntryPaths(walk[|walk| - 1])
  }

  /** The entry a path contributes: itself with its audio flag if it is valid media, nothing otherwise. */
  function CandidateOf(path: string, probe: string -> ProbeResult): seq<MediaCandidate>
  {
    var c := IsMediaFile(probe(path));
    if c.valid then [MediaCandidate(path, c.audio)] else []
  }

  /** The valid media among `paths`, in order. */
  function Keep(paths: seq<string>, probe: string -> ProbeResult): seq<MediaCandidate>
  {
    if paths == [] then [] else Keep(paths[..|paths| - 1], probe) + CandidateOf(paths[|paths| - 1], probe)
  }

  /**
   * What `get_media_files` returns: `None` when a directory is given and
   * none of its files is media, or when a file is given and is not media
   * (whatever the directory held); otherwise the directory's media in walk
   * order followed by the single file.
   */
  function MediaFiles(directory: Option<string>, walk: seq<WalkEntry>, file: Option<string>,
                      probe: string -> ProbeResult): Option<seq<MediaCandidate>>
  {
    var fromDirectory := if Given(directory) then Keep(WalkPaths(walk), probe) else [];
    if Given(directory) && fromDirectory == [] then None
    else if Given(file) then
      var c := IsMediaFile(probe(file.value));
      if c.valid then Some(fromDirectory + [MediaCandidate(file.value, c.audio)]) else None
    else Some(fromDirectory)
  }

  /**
   * `get_media_files(directory, file)`, with the output of
   * `os.walk(directory)` given as `walk` and `ffmpeg.probe` as `probe`.
   */
  method GetMediaFiles(directory: Option<string>, walk: seq<WalkEntry>, file: Option<string>,
                       probe: string -> ProbeResult)
    returns (result: Option<seq<MediaCandidate>>)
    ensures result == MediaFiles(directory, walk, file, probe)
  {
    var mediaFiles: seq<MediaCandidate> := [];
    if Given(directory) {
      var i := 0;
      while i < |walk|
        invariant 0 <= i <= |walk|
        invariant mediaFiles == Keep(WalkPaths(walk[..i]), probe)
      {
        var found := CollectFiles(walk[i].root, walk[i].files, probe);
        KeepAppend(WalkPaths(walk[..i]), EntryPaths(walk[i]), probe);
        mediaFiles := mediaFiles + found;
        assert walk[..i + 1][..i] == walk[..i];
        i := i + 1;
      }
      assert walk[..i] == walk;
      if mediaFiles == [] {
        return None;   // logged: no valid media files found in the directory
      }
    }
    if Given(file) {
      var c := IsMediaFile(probe(file.value));
      if c.valid {
        mediaFiles := mediaFiles + [MediaCandidate(file.value, c.audio)];
      } else {
        return None;   // logged: the file is not a valid media file
      }
    }
    return Some(mediaFiles);
  }

  /** The inner loop of `get_media_files`: the valid media among the files of one walked directory. */
  method CollectFiles(root: string, files: seq<string>, probe: string -> ProbeResult)
    returns (found: seq<MediaCandidate>)
    ensures found == Keep(JoinAll(root, files), probe)
  {
    found := [];
    var j := 0;
    while j < |files|
      invariant 0 <= j <= |files|
      invariant found == Keep(JoinAll(root, files[..j]), probe)
    {
      var filePath := PathJoin(root, files[j]);
      var c := IsMediaFile(probe(filePath));
      if c.valid {
        found := found + [MediaCandidate(filePath, c.audio)];
      }
      JoinAllSnoc(root, files, j);
      KeepSnoc(JoinAll(root, files[..j]), filePath, probe);
      j := j + 1;
    }
    assert files[..j] == files;
  }

  // ---------------------------------------------------------------- properties of the specification

  /** Joining one more file name appends its path. */
  lemma JoinAllSnoc(root: string, files: seq<string>, j: nat)
    requires j < |files|
    ensures JoinAll(root, files[..j + 1]) == JoinAll(root, files[..j]) + [PathJoin(root, files[j])]
  {
    assert files[..j + 1][..j] == files[..j];
  }

  /** Filtering one more path adds that path's entry, if any. */
  lemma KeepSnoc(paths: seq<string>, path: string, probe: string -> ProbeResult)
    ensures Keep(paths + [path], probe) == Keep(paths, probe) + CandidateOf(path, probe)
  {
  }

  /** Filtering a concatenation filters each part: walk order is kept. */
  lemma {:induction false} KeepAppend(a: seq<string>, b: seq<string>, probe: string -> ProbeResult)
    ensures Keep(a + b, probe) == Keep(a, probe) + Keep(b, probe)
  {
    if b != [] {
      var last := b[|b| - 1];
      assert (a + b)[..|a + b| - 1] == a + b[..|b| - 1];
      KeepAppend(a, b[..|b| - 1], probe);
    } else {
      assert a + b == a;
    }
  }

  /** Every kept entry is a path of the input, classified valid, with the probe's audio flag. */
  lemma {:induction false} KeepSound(paths: seq<string>, probe: string -> ProbeResult)
    ensures forall m :: m in Keep(paths, probe) ==>
              m.path in paths && IsMediaFile(probe(m.path)) == Classification(true, m.isAudio)
  {
    if paths != [] {
      KeepSound(paths[..|paths| - 1], probe);
    }
  }

  /** Every valid path of the input is kept, with its audio flag. */
  lemma {:induction false} KeepComplete(paths: seq<string>, probe: string -> ProbeResult)
    ensures forall p :: p in paths && IsMediaFile(probe(p)).valid ==>
              MediaCandidate(p, IsMediaFile(probe(p)).audio) in Keep(paths, probe)
  {
    if paths != [] {
      var init := paths[..|paths| - 1];
      KeepComplete(init, probe);
      assert forall p :: p in paths ==> p in init || p == paths[|paths| - 1];
    }
  }

  /** Nothing is kept exactly when no path is valid media. */
  lemma KeepEmpty(paths: seq<string>, probe: string -> ProbeResult)
    ensures Keep(paths, probe) == [] <==> forall p :: p in paths ==> !IsMediaFile(probe(p)).valid
  {
  }

  /**
   * The two ways `get_media_files` returns `None`: a given directory whose
   * walk holds no valid media, or a given file that is not valid media.
   */
  lemma MediaFilesNone(directory: Option<string>, walk: seq<WalkEntry>, file: Option<string>,
                       probe: string -> ProbeResult)
    ensures MediaFiles(directory, walk, file, probe).None? <==>
              || (Given(directory) && forall p :: p in WalkPaths(walk) ==> !IsMediaFile(probe(p)).valid)
              || (Given(file) && !IsMediaFile(probe(file.value)).valid)
  {
    KeepEmpty(WalkPaths(walk), probe);
  }

  /**
   * A successful result: with neither argument it is empty; otherwise every
   * entry is valid media carrying the probe's audio flag, the directory's
   * entries come first in walk order, and a given file is the last entry.
   */
  lemma MediaFilesFound(directory: Option<string>, walk: seq<WalkEntry>, file: Option<string>,
                        probe: string -> ProbeResult)
    requires MediaFiles(directory, walk, file, probe).Some?
    ensures var r := MediaFiles(directory, walk, file, probe).value;
      && (!Given(directory) && !Given(file) ==> r == [])
      && (forall m :: m in r ==> IsMediaFile(probe(m.path)) == Classification(true, m.isAudio))
      && (Given(file) ==> |r| > 0 && r[|r| - 1].path == file.value
                          && r[..|r| - 1] == (if Given(directory) then Keep(WalkPaths(walk), probe) else []))
      && (!Given(file) ==> r == (if Given(directory) then Keep(WalkPaths(walk), probe) else []))
      && (Given(directory) ==> forall p :: p in WalkPaths(walk) && IsMediaFile(probe(p)).valid ==>
                                 MediaCandidate(p, IsMediaFile(probe(p)).audio) in r)
  {
    KeepSound(WalkPaths(walk), probe);
    KeepComplete(WalkPaths(walk), probe);
    var r := MediaFiles(directory, walk, file, probe).value;
    if Given(file) {
      assert r[..|r| - 1] == (if Given(directory) then Keep(WalkPaths(walk), probe) else []);
      assert forall m :: m in r ==> m in r[..|r| - 1] || m == r[|r| - 1];
    }
  }
}
