/**
 * The POSIX `os.path` functions the program uses (`basename`, `dirname`,
 * `join`, `splitext`) and the two file names it derives from a media path:
 * the extracted-audio name and the subtitle path.
 */
module Paths {
  import opened Wrappers
  import opened Text

  predicate AllChar(s: string, c: char)
  {
    forall k :: 0 <= k < |s| ==> s[k] == c
  }

  /** `s.rstrip(c)` for a single character `c`. */
  function TrimTrailing(s: string, c: char): (r: string)
    ensures r <= s
    ensures AllChar(s[|r|..], c)
    ensures r == [] || r[|r| - 1] != c
  {
    if |s| > 0 && s[|s| - 1] == c then TrimTrailing(s[..|s| - 1], c) else s
  }

  /** `os.path.basename(p)`: the part after the last '/'. */
  function Basename(p: string): (r: string)
    ensures '/' !in r
    ensures |r| <= |p| && r == p[|p| - |r|..]
    ensures '/' !in p ==> r == p
    ensures '/' in p ==> |r| < |p| && p[|p| - |r| - 1] == '/'
  {
    match LastIndexOf(p, '/')
    case None => p
    case Some(i) => p[i + 1..]
  }

  /**
   * `os.path.dirname(p)`: the part up to the last '/', with the trailing
   * slashes removed unless it consists of slashes only. What lies between
   * the directory and the base name is slashes only.
   */
  function Dirname(p: string): (r: string)
    ensures r <= p
    ensures '/' !in p ==> r == ""
    ensures r == "" || AllChar(r, '/') || r[|r| - 1] != '/'
    ensures |r| + |Basename(p)| <= |p| && AllChar(p[|r|..|p| - |Basename(p)|], '/')
  {
    match LastIndexOf(p, '/')
    case None => ""
    case Some(i) =>
      var head := p[..i + 1];
      if !AllChar(head, '/') then
        var r := TrimTrailing(head, '/');
        assert p[|r|..|p| - |Basename(p)|] == head[|r|..];
        r
      else head
  }

  /**
   * `os.path.join(a, b)` for two components: an absolute `b` replaces `a`;
   * otherwise `b` follows `a`, with one '/' inserted when `a` is non-empty
   * and does not already end in one.
   */
  function PathJoin(a: string, b: string): (r: string)
    ensures |b| <= |r| && r[|r| - |b|..] == b
    ensures |b| > 0 && b[0] == '/' ==> r == b
    ensures !(|b| > 0 && b[0] == '/') ==>
              && a <= r && |a| + |b| <= |r| <= |a| + |b| + 1
              && (|r| - |b| - |a| == 1 <==> a != "" && a[|a| - 1] != '/')
              && AllChar(r[|a|..|r| - |b|], '/')
  {
    if |b| > 0 && b[0] == '/' then b
    else if a == "" || a[|a| - 1] == '/' then a + b
    else a + "/" + b
  }

  predicate HasNonDot(s: string)
  {
    exists k :: 0 <= k < |s| && s[k] != '.'
  }

  /** A single component `name` has an extension: a '.' with a non-dot character somewhere before it. */
  predicate HasExtension(name: string)
  {
    exists d :: 0 < d < |name| && name[d] == '.' && HasNonDot(name[..d])
  }

  /**
   * `os.path.splitext(p)[0]`: `p` without its extension. The extension is
   * the part from the last '.' of the last component, provided that
   * component has a non-dot character before it (so ".bashrc" has none).
   */
  function SplitextRoot(p: string): (r: string)
    ensures r <= p
    ensures r != p ==> p[|r|] == '.' && '.' !in p[|r| + 1..] && '/' !in p[|r|..]
  {
    var start := match LastIndexOf(p, '/') case None => 0 case Some(i) => i + 1;
    assert '/' !in p[start..];
    match LastIndexOf(p, '.')
    case None => p
    case Some(dot) =>
      if dot >= start && HasNonDot(p[start..dot]) then
        assert p[dot..] == p[start..][dot - start..];
        p[..dot]
      else p
  }

  /**
   * On a single component, `splitext` cuts exactly when there is an
   * extension: "movie.mp4" loses ".mp4", while "movie" and ".bashrc" stay whole.
   */
  lemma SplitextCutsExtension(name: string)
    requires '/' !in name
    ensures SplitextRoot(name) != name <==> HasExtension(name)
  {
    match LastIndexOf(name, '.')
    case None =>
    case Some(dot) =>
      if HasExtension(name) {
        var d :| 0 < d < |name| && name[d] == '.' && HasNonDot(name[..d]);
        var k :| 0 <= k < d && name[..d][k] != '.';
        assert name[..dot][k] != '.';
        assert name[0..dot] == name[..dot];
      }
      if SplitextRoot(name) != name {
        assert name[0..dot] == name[..dot];
      }
  }

  /**
   * The name `extract_audio` gives the audio it extracts:
   * "audio-" + the source's base name without extension + ".mp3". It is a
   * single path component (relative to the working directory), and its
   * stem is the source's base name with its extension cut off, when it has one.
   */
  function ExtractedAudioName(videoPath: string): (r: string)
    ensures '/' !in r
    ensures |r| >= 10 && r[..6] == "audio-" && r[|r| - 4..] == ".mp3"
    ensures var stem, name := r[6..|r| - 4], Basename(videoPath);
            && stem <= name
            && (stem != name <==> HasExtension(name))
            && (stem != name ==> name[|stem|] == '.' && '.' !in name[|stem| + 1..])
  {
    var stem := SplitextRoot(Basename(videoPath));
    Enclosed("audio-", stem, ".mp3");
    SplitextCutsExtension(Basename(videoPath));
    "audio-" + stem + ".mp3"
  }

  /** The three parts of `a + m + b` can be read back, and a '/' in it lies in one of them. */
  lemma Enclosed(a: string, m: string, b: string)
    ensures var r := a + m + b;
            && r[..|a|] == a && r[|a|..|r| - |b|] == m && r[|r| - |b|..] == b
            && ('/' in r <==> '/' in a || '/' in m || '/' in b)
  {
  }

  /** The file stem `main` uses: `os.path.basename(p.rsplit(".", 1)[0])`. */
  function SubtitleStem(p: string): (r: string)
    ensures '/' !in r
  {
    Basename(RSplitHead(p, '.'))
  }

  /**
   * The subtitle file `main` writes for the media file at `p`, given the
   * stem `fileName` it derived from `p` earlier:
   * `os.path.join(os.path.dirname(p), fileName + ".ai-" + language + ".srt")`.
   * For a stem and language code without '/' it lies next to its source:
   * same directory, and the name stem + ".ai-" + language + ".srt".
   */
  function SubtitlePath(p: string, fileName: string, language: string): (r: string)
    ensures '/' !in fileName && '/' !in language ==>
              SplitsInto(r, Dirname(p), fileName + ".ai-" + language + ".srt")
  {
    SubtitleNameSplits(Dirname(p), fileName, language);
    PathJoin(Dirname(p), fileName + ".ai-" + language + ".srt")
  }

  /** `r` is the file `name` in the directory `dir`: `dirname` and `basename` give back the two. */
  predicate SplitsInto(r: string, dir: string, name: string)
  {
    Dirname(r) == dir && Basename(r) == name
  }

  /** Joining a directory in `dirname`'s normal form with a bare name splits back into the two. */
  lemma JoinSplits(dir: string, name: string)
    requires '/' !in name
    requires dir == "" || AllChar(dir, '/') || dir[|dir| - 1] != '/'
    ensures Dirname(PathJoin(dir, name)) == dir
    ensures Basename(PathJoin(dir, name)) == name
  {
    var joined := PathJoin(dir, name);
    if dir == "" {
      assert joined == name;
    } else if dir[|dir| - 1] == '/' {
      assert joined == dir + name;
      assert joined[|dir|..] == name;
      LastIndexOfIs(joined, '/', |dir| - 1);
      assert joined[..|dir|] == dir;
    } else {
      assert joined == dir + "/" + name;
      assert joined[|dir| + 1..] == name;
      LastIndexOfIs(joined, '/', |dir|);
      var head := joined[..|dir| + 1];
      assert head == dir + "/";
      assert head[|dir| - 1] != '/';
      assert TrimTrailing(head, '/') == TrimTrailing(dir, '/');
    }
  }

  lemma NoSlashConcat(stem: string, language: string)
    requires '/' !in stem && '/' !in language
    ensures '/' !in stem + ".ai-" + language + ".srt"
  {
  }

  /** A subtitle name joined onto a directory in `dirname`'s normal form splits back into the two. */
  lemma SubtitleNameSplits(dir: string, stem: string, language: string)
    requires dir == "" || AllChar(dir, '/') || dir[|dir| - 1] != '/'
    ensures var name := stem + ".ai-" + language + ".srt";
            '/' !in stem && '/' !in language ==> Dirname(PathJoin(dir, name)) == dir && Basename(PathJoin(dir, name)) == name
  {
    if '/' !in stem && '/' !in language {
      NoSlashConcat(stem, language);
      JoinSplits(dir, stem + ".ai-" + language + ".srt");
    }
  }

  // ---------------------------------------------------------------- the stem crosses into a directory name

  /**
   * As written, the '.' that `rsplit` cuts at may lie in a directory name
   * when the file itself has no extension: for "dir.ext/file" the stem is
   * "dir", not drawn from the file's own name "file".
   */
  lemma SubtitleStemCrossesDirectory(dir: string, ext: string, file: string)
    requires '/' !in dir && '/' !in ext && '.' !in ext && '/' !in file && '.' !in file
    ensures SubtitleStem(dir + "." + ext + "/" + file) == dir
    ensures Basename(dir + "." + ext + "/" + file) == file
  {
    var p := dir + "." + ext + "/" + file;
    var dot, slash := |dir|, |dir| + 1 + |ext|;
    assert p[dot + 1..] == ext + "/" + file;
    LastIndexOfIs(p, '.', dot);
    assert p[..dot] == dir;
    assert Basename(dir) == dir;
    assert p[slash + 1..] == file;
    BasenameAfter(p, slash);
  }

  /** One such path: "clips.v2/intro" gets the stem "clips", which "intro" does not start with. */
  lemma SubtitleStemCrossesDirectoryExample()
    ensures SubtitleStem("clips.v2/intro") == "clips"
    ensures !(SubtitleStem("clips.v2/intro") <= Basename("clips.v2/intro"))
  {
    assert "clips.v2/intro" == "clips" + "." + "v2" + "/" + "intro";
    SubtitleStemCrossesDirectory("clips", "v2", "intro");
    assert "clips"[0] != "intro"[0];
  }

  /**
   * A path whose only '.' leads it, such as "./videos/intro", gets the
   * empty stem.
   */
  lemma SubtitleStemLeadingDot(rest: string)
    requires '.' !in rest
    ensures SubtitleStem("." + rest) == ""
  {
    var p := "." + rest;
    assert p[1..] == rest;
    LastIndexOfIs(p, '.', 0);
  }

  /** One such path: "./videos/intro" gets the stem "", so its subtitles are named ".ai-{language}.srt". */
  lemma SubtitleStemLeadingDotExample()
    ensures SubtitleStem("./videos/intro") == ""
  {
    assert "./videos/intro" == "." + "/videos/intro";
    SubtitleStemLeadingDot("/videos/intro");
  }

  /**
   * The stem taken from the base name alone: `os.path.basename(p).rsplit(".", 1)[0]`.
   * It is the base name cut before its last '.', and the whole base name
   * exactly when that has no '.'.
   */
  function SubtitleStemFixed(p: string): (r: string)
    ensures '/' !in r
    ensures r <= Basename(p)
    ensures r == Basename(p) <==> '.' !in Basename(p)
    ensures r != Basename(p) ==> Basename(p)[|r|] == '.' && '.' !in Basename(p)[|r| + 1..]
  {
    RSplitHead(Basename(p), '.')
  }

  /** The base name is what follows the last '/'. */
  lemma BasenameAfter(s: string, j: nat)
    requires j < |s| && s[j] == '/' && '/' !in s[j + 1..]
    ensures Basename(s) == s[j + 1..]
  {
  }

  /**
   * The two stems agree whenever the base name has a '.' or the path has
   * none at all: the as-written stem only goes wrong for an extensionless
   * file under a dotted directory.
   */
  lemma StemsAgree(p: string)
    requires '.' in Basename(p) || '.' !in p
    ensures SubtitleStem(p) == SubtitleStemFixed(p)
  {
    if '.' !in p {
      StemsAgreeNoDot(p);
    } else {
      StemsAgreeDottedName(p);
    }
  }

  lemma StemsAgreeNoDot(p: string)
    requires '.' !in p
    ensures SubtitleStem(p) == SubtitleStemFixed(p)
  {
    var name := Basename(p);
    assert name == p[|p| - |name|..];
    assert '.' !in name;
  }

  lemma StemsAgreeDottedName(p: string)
    requires '.' in Basename(p)
    ensures SubtitleStem(p) == SubtitleStemFixed(p)
  {
    var name := Basename(p);
    var pre := p[..|p| - |name|];
    assert p == pre + name;
    StemOfDirectoryAndName(pre, name);
  }

  /** Under a directory prefix ending in '/', a dotted name's as-written stem is its own name cut at its last '.'. */
  lemma StemOfDirectoryAndName(pre: string, name: string)
    requires '/' !in name && '.' in name
    requires pre == "" || pre[|pre| - 1] == '/'
    ensures SubtitleStem(pre + name) == RSplitHead(name, '.')
  {
    var q := pre + name;
    var d := LastIndexOf(name, '.').value;
    RSplitHeadAt(name, '.', d);
    assert q[|pre| + d + 1..] == name[d + 1..];
    RSplitHeadAt(q, '.', |pre| + d);
    var head := q[..|pre| + d];
    assert head == pre + name[..d];
    StemOfHead(q, head);
    BasenameUnder(pre, name[..d]);
  }

  /** A bare name under a prefix ending in '/' is the base name. */
  lemma BasenameUnder(pre: string, b: string)
    requires '/' !in b
    requires pre == "" || pre[|pre| - 1] == '/'
    ensures Basename(pre + b) == b
  {
    if pre == "" {
      assert pre + b == b;
    } else {
      assert (pre + b)[|pre|..] == b;
      BasenameAfter(pre + b, |pre| - 1);
    }
  }

  /** The as-written stem is the base name of what `rsplit` leaves. */
  lemma StemOfHead(p: string, head: string)
    requires RSplitHead(p, '.') == head
    ensures SubtitleStem(p) == Basename(head)
  {
  }

  /** `rsplit` cuts before the last occurrence of `c`. */
  lemma RSplitHeadAt(s: string, c: char, i: nat)
    requires i < |s| && s[i] == c && c !in s[i + 1..]
    ensures RSplitHead(s, c) == s[..i]
  {
    LastIndexOfIs(s, c, i);
  }


}
