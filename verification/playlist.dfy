/** The playlist parser `parseM3u8` (fetcher.js): every `\n`-separated line
    whose lower-cased text contains ".ts" is taken as a segment reference,
    resolved with `applyURL` and numbered in playlist order. Lines are not
    trimmed, so a `\r` left by CRLF line ends stays in the reference. */
module Playlist {
  import opened JsText
  import opened Url

  /** One entry of `finishList` (and of the persisted progress list). */
  datatype Segment = Segment(url: string, done: bool, index: nat)

  /** The two aligned lists `parseM3u8` returns. */
  datatype Parsed = Parsed(tsUrlList: seq<string>, finishList: seq<Segment>)

  /** The lower-cased text of `line` has ".ts" starting at position `i`. */
  predicate TsAt(line: string, i: int)
  {
    0 <= i && i + 3 <= |line|
    && LowerAscii(line[i]) == '.' && LowerAscii(line[i + 1]) == 't' && LowerAscii(line[i + 2]) == 's'
  }

  /** `line.toLowerCase().indexOf('.ts') > -1`, scanning from position `from`. */
  function ContainsTsFrom(line: string, from: nat): bool
    requires from <= |line|
    decreases |line| - from
  {
    if from + 3 > |line| then false
    else TsAt(line, from) || ContainsTsFrom(line, from + 1)
  }

  /** The scan finds ".ts" exactly when it occurs at or after `from`, in any
      mix of upper and lower case. */
  lemma {:induction false} ContainsTsExact(line: string, from: nat)
    requires from <= |line|
    ensures ContainsTsFrom(line, from) <==> exists i :: from <= i && TsAt(line, i)
    decreases |line| - from
  {
    if from + 3 <= |line| {
      ContainsTsExact(line, from + 1);
      if exists i :: from <= i && TsAt(line, i) {
        var i :| from <= i && TsAt(line, i);
        assert i == from || (from + 1 <= i && TsAt(line, i));
      }
    }
  }

  predicate IsSegmentLine(line: string)
  {
    ContainsTsFrom(line, 0)
  }

  /** The positions, among the first `n` lines, of the segment lines, in
      increasing order: the reference against which the parser is checked
      (characterised by `SegmentPositionsExact`). */
  function SegmentPositions(lines: seq<string>, n: nat): (ps: seq<nat>)
    requires n <= |lines|
    ensures forall k :: 0 <= k < |ps| ==> ps[k] < n
  {
    if n == 0 then []
    else SegmentPositions(lines, n - 1) + (if IsSegmentLine(lines[n - 1]) then [n - 1] else [])
  }

  /** The positions are exactly the segment lines among the first `n`, each
      once and in playlist order. */
  lemma {:induction false} SegmentPositionsExact(lines: seq<string>, n: nat)
    requires n <= |lines|
    ensures var ps := SegmentPositions(lines, n);
            && (forall k :: 0 <= k < |ps| ==> ps[k] < n && IsSegmentLine(lines[ps[k]]))
            && (forall k, l :: 0 <= k < l < |ps| ==> ps[k] < ps[l])
            && (forall j :: 0 <= j < n && IsSegmentLine(lines[j]) ==> j in ps)
  {
    if n > 0 {
      SegmentPositionsExact(lines, n - 1);
    }
  }

  /** The `forEach` of `parseM3u8`: walk the lines in order and push the
      resolved URL of every segment line. */
  method CollectSegmentUrls(lines: seq<string>, url: string) returns (tsUrlList: seq<string>)
    ensures var ps := SegmentPositions(lines, |lines|);
            && |tsUrlList| == |ps|
            && (forall k :: 0 <= k < |ps| ==> tsUrlList[k] == ApplyUrl(lines[ps[k]], url))
  {
    tsUrlList := [];
    ghost var ps: seq<nat> := [];
    var j := 0;
    while j < |lines|
      invariant 0 <= j <= |lines|
      invariant ps == SegmentPositions(lines, j)
      invariant |tsUrlList| == |ps|
      invariant forall k :: 0 <= k < |ps| ==> tsUrlList[k] == ApplyUrl(lines[ps[k]], url)
    {
      var item := lines[j];
      if IsSegmentLine(item) {
        tsUrlList := tsUrlList + [ApplyUrl(item, url)];
        ps := ps + [j];
      }
      j := j + 1;
    }
  }

  /** `parseM3u8(m3u8Str, url)`: the segment URLs and the matching fresh
      progress records. Entry `k` comes from the `k`-th segment line of the
      playlist, resolved against `url`; its record carries that URL, index
      `k` and `done == false`. */
  method ParseM3u8(text: string, url: string) returns (p: Parsed)
    ensures var lines := Split(text, '\n');
            var ps := SegmentPositions(lines, |lines|);
            && |p.tsUrlList| == |ps|
            && (forall k :: 0 <= k < |ps| ==> p.tsUrlList[k] == ApplyUrl(lines[ps[k]], url))
    ensures |p.finishList| == |p.tsUrlList|
    ensures forall k :: 0 <= k < |p.finishList| ==> p.finishList[k] == Segment(p.tsUrlList[k], false, k)
  {
    var tsUrlList := CollectSegmentUrls(Split(text, '\n'), url);
    // The records are pushed as `{url, done: false}` and numbered afterwards
    // by `finishList.map((item, index) => ...)`.
    var finishList := seq(|tsUrlList|, k requires 0 <= k < |tsUrlList| => Segment(tsUrlList[k], false, k));
    p := Parsed(tsUrlList, finishList);
  }

  /** A playlist with no segment line yields no positions, so the parser
      returns two empty lists rather than failing. */
  lemma {:induction false} NoSegmentLinesMeansEmpty(lines: seq<string>, n: nat)
    requires n <= |lines|
    requires forall j :: 0 <= j < n ==> !IsSegmentLine(lines[j])
    ensures SegmentPositions(lines, n) == []
  {
    if n > 0 {
      NoSegmentLinesMeansEmpty(lines, n - 1);
    }
  }
}
