/**
 * `generate_subtitles` and `post_process`: rendering the aligned segments
 * as SubRip text, and the post-processing pass over that text together
 * with the per-line clipping rule it was written around.
 */
module Subtitles {
  import opened Text

  /** One aligned segment from the transcriber: start and end in seconds, and its text. */
  datatype Segment = Segment(start: real, end: real, text: string)

  /** The length beyond which `post_process` would clip a line. */
  const MaxLineLength := 150

  // ---------------------------------------------------------------- rendering

  /** The three pieces `generate_subtitles` appends for the segment numbered `index`. */
  function SegmentPieces(index: nat, s: Segment, formatTime: real -> string, sep: string): seq<string>
  {
    [sep + Decimal(index), formatTime(s.start) + " --> " + formatTime(s.end), Strip(s.text) + sep]
  }

  /** The list `srt_content` holds after the loop: three pieces per segment, in order, numbered from 1. */
  function Pieces(segments: seq<Segment>, formatTime: real -> string, sep: string): (ps: seq<string>)
    ensures |ps| == 3 * |segments|
  {
    if segments == [] then []
    else
      var n := |segments|;
      Pieces(segments[..n - 1], formatTime, sep) + SegmentPieces(n, segments[n - 1], formatTime, sep)
  }

  /** The text `generate_subtitles` returns: the pieces joined by the line separator. */
  function Render(segments: seq<Segment>, formatTime: real -> string, sep: string): string
  {
    Join(Pieces(segments, formatTime, sep), sep)
  }

  /**
   * `generate_subtitles(segments)`, with `timer.Timer.format_time` given as
   * `formatTime` and `os.linesep` as `sep`.
   */
  method GenerateSubtitles(segments: seq<Segment>, formatTime: real -> string, sep: string)
    returns (srt: string)
    ensures srt == Render(segments, formatTime, sep)
  {
    var content: seq<string> := [];
    for i := 0 to |segments|
      invariant content == Pieces(segments[..i], formatTime, sep)
    {
      var segment := segments[i];
      var segmentStart := formatTime(segment.start);
      var segmentEnd := formatTime(segment.end);
      var text := Strip(segment.text);
      content := content + [sep + Decimal(i + 1)];
      content := content + [segmentStart + " --> " + segmentEnd];
      content := content + [text + sep];
      PiecesSnoc(segments, formatTime, sep, i);
    }
    assert segments[..|segments|] == segments;
    srt := Join(content, sep);
  }

  /** Rendering one more segment appends its three pieces, numbered by its position from 1. */
  lemma PiecesSnoc(segments: seq<Segment>, formatTime: real -> string, sep: string, i: nat)
    requires i < |segments|
    ensures Pieces(segments[..i + 1], formatTime, sep)
         == Pieces(segments[..i], formatTime, sep) + SegmentPieces(i + 1, segments[i], formatTime, sep)
  {
    assert segments[..i + 1][..i] == segments[..i];
  }

  /**
   * Where each piece sits: for the k-th segment (from 0) the list holds its
   * number k + 1, its time range and its stripped text at 3k, 3k + 1 and
   * 3k + 2.
   */
  lemma {:induction false} PiecesAt(segments: seq<Segment>, formatTime: real -> string, sep: string, k: nat)
    requires k < |segments|
    ensures var ps, s := Pieces(segments, formatTime, sep), segments[k];
            && ps[3 * k] == sep + Decimal(k + 1)
            && ps[3 * k + 1] == formatTime(s.start) + " --> " + formatTime(s.end)
            && ps[3 * k + 2] == Strip(s.text) + sep
  {
    var n := |segments|;
    var p := Pieces(segments[..n - 1], formatTime, sep);
    assert Pieces(segments, formatTime, sep) == p + SegmentPieces(n, segments[n - 1], formatTime, sep);
    if k < n - 1 {
      PiecesAt(segments[..n - 1], formatTime, sep, k);
      assert segments[..n - 1][k] == segments[k];
    } else {
      assert |p| == 3 * k;
    }
  }

  /**
   * The subtitle numbers are 1, 2, ..., n in segment order: the piece that
   * opens the k-th block reads back as k + 1 after the separator.
   */
  lemma SubtitleNumbers(segments: seq<Segment>, formatTime: real -> string, sep: string)
    ensures var ps := Pieces(segments, formatTime, sep);
            forall k :: 0 <= k < |segments| ==>
              && |ps[3 * k]| > |sep| && ps[3 * k][..|sep|] == sep
              && AllDigits(ps[3 * k][|sep|..]) && DecimalValue(ps[3 * k][|sep|..]) == k + 1
  {
    var ps := Pieces(segments, formatTime, sep);
    forall k | 0 <= k < |segments|
      ensures && |ps[3 * k]| > |sep| && ps[3 * k][..|sep|] == sep
              && AllDigits(ps[3 * k][|sep|..]) && DecimalValue(ps[3 * k][|sep|..]) == k + 1
    {
      PiecesAt(segments, formatTime, sep, k);
      assert ps[3 * k][|sep|..] == Decimal(k + 1);
      DecimalRoundTrip(k + 1);
    }
  }

  /** One SubRip block: blank line, number, time range, text, each line ended by the separator. */
  function Block(index: nat, s: Segment, formatTime: real -> string, sep: string): string
  {
    sep + Decimal(index) + sep + (formatTime(s.start) + " --> " + formatTime(s.end)) + sep + (Strip(s.text) + sep)
  }

  function Blocks(segments: seq<Segment>, formatTime: real -> string, sep: string): seq<string>
  {
    if segments == [] then []
    else
      var n := |segments|;
      Blocks(segments[..n - 1], formatTime, sep) + [Block(n, segments[n - 1], formatTime, sep)]
  }

  /**
   * The rendered text is the segments' SubRip blocks, numbered from 1 in
   * order and separated by one more line separator; no segments render as
   * the empty text.
   */
  lemma {:induction false} RenderIsBlocks(segments: seq<Segment>, formatTime: real -> string, sep: string)
    ensures Render(segments, formatTime, sep) == Join(Blocks(segments, formatTime, sep), sep)
    ensures segments == [] ==> Render(segments, formatTime, sep) == ""
  {
    if segments != [] {
      var n := |segments|;
      var init := segments[..n - 1];
      var s := segments[n - 1];
      var p := Pieces(init, formatTime, sep);
      var a, b, c := sep + Decimal(n), formatTime(s.start) + " --> " + formatTime(s.end), Strip(s.text) + sep;
      var block := Block(n, s, formatTime, sep);
      BlockIsJoinedPieces(n, s, formatTime, sep);
      assert Pieces(segments, formatTime, sep) == p + [a, b, c];
      assert Blocks(segments, formatTime, sep) == Blocks(init, formatTime, sep) + [block];
      if init == [] {
        assert p + [a, b, c] == [a, b, c];
        assert Blocks(segments, formatTime, sep) == [block];
      } else {
        RenderIsBlocks(init, formatTime, sep);
        JoinTriple(p, a, b, c, sep);
        JoinSnoc(Blocks(init, formatTime, sep), block, sep);
        Reassociate(Join(p, sep), a, b, c, sep);
      }
    }
  }

  /** A block is its three pieces joined by the separator. */
  lemma BlockIsJoinedPieces(index: nat, s: Segment, formatTime: real -> string, sep: string)
    ensures Block(index, s, formatTime, sep) == Join(SegmentPieces(index, s, formatTime, sep), sep)
  {
    var ps := SegmentPieces(index, s, formatTime, sep);
    assert ps[..2] == [ps[0], ps[1]] && ps[..2][..1] == [ps[0]];
    assert Join(ps[..2], sep) == ps[0] + sep + ps[1];
  }

  lemma Reassociate(x: string, a: string, b: string, c: string, sep: string)
    ensures x + sep + (a + sep + b + sep + c) == x + sep + a + sep + b + sep + c
  {
  }

  /** Joining three more parts appends each after a separator. */
  lemma JoinTriple(p: seq<string>, a: string, b: string, c: string, sep: string)
    requires |p| > 0
    ensures Join(p + [a, b, c], sep) == Join(p, sep) + sep + a + sep + b + sep + c
  {
    var p1 := p + [a];
    var p2 := p1 + [b];
    assert p + [a, b, c] == p2 + [c];
    JoinSnoc(p, a, sep);
    JoinSnoc(p1, b, sep);
    JoinSnoc(p2, c, sep);
  }

  // ---------------------------------------------------------------- post-processing

  /**
   * The clipping body of `post_process` applied to one line: a line of at
   * most 150 characters is kept; a longer one is cut to its first 150
   * characters and then before the last space among them, if there is one.
   * `str.rsplit` never raises here, so the fallback `line[:150]` is exactly
   * the no-space case.
   */
  function ClipLine(line: string): (r: string)
    ensures |line| <= MaxLineLength ==> r == line
    ensures |line| > MaxLineLength ==> r <= line && |r| <= MaxLineLength
    ensures |line| > MaxLineLength && ' ' !in line[..MaxLineLength] ==> r == line[..MaxLineLength]
    ensures |line| > MaxLineLength && ' ' in line[..MaxLineLength] ==>
              && |r| < MaxLineLength && line[|r|] == ' ' && ' ' !in line[|r| + 1..MaxLineLength]
  {
    if |line| > MaxLineLength then
      var clipped := RSplitHead(line[..MaxLineLength], ' ');
      assert ' ' in line[..MaxLineLength] ==>
               line[..MaxLineLength][|clipped| + 1..] == line[|clipped| + 1..MaxLineLength];
      clipped
    else
      line
  }

  /** Clipping is idempotent: a clipped line is short enough to be kept as it is. */
  lemma ClipLineIdempotent(line: string)
    ensures ClipLine(ClipLine(line)) == ClipLine(line)
  {
  }

  /**
   * `post_process(subtitles)`. `for line in subtitles` walks a `str`, so
   * every "line" is a single character, the clipping branch never runs and
   * the result is the input unchanged.
   */
  method PostProcess(subtitles: string) returns (clean: string)
    ensures clean == subtitles
  {
    clean := "";
    for i := 0 to |subtitles|
      invariant clean == subtitles[..i]
    {
      var line := [subtitles[i]];
      if |line| > MaxLineLength {
        line := ClipLine(line);
      }
      clean := clean + line;
      assert subtitles[..i + 1] == subtitles[..i] + [subtitles[i]];
    }
    assert subtitles[..|subtitles|] == subtitles;
  }
}
