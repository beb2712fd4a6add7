/** Key-directive extraction in `prepareDownload` (fetcher.js). The three
    attribute regexes are modelled as JavaScript evaluates them, without the
    `s` or `m` flag:

      METHOD:  /(.*METHOD=([^,\s]+))/      URI:  /(.*URI="([^"]+))"/
      IV:      /(.*IV=([^,\s]+))/

    The search runs over the whole playlist text, not only the `#EXT-X-KEY`
    line. Since `.` stops at a line terminator, the leftmost match starts at
    the beginning of the first line holding an occurrence of the attribute,
    and the greedy `.*` then settles on the LAST occurrence on that line; the
    captured value is the greedy run after `NAME=`. `IsRegexMatch` states this
    choice; when an attribute occurs only once (the usual playlist) it is
    simply "the value after NAME= up to ',' or white space (up to the
    closing '"' for URI)", see `SingleOccurrence`. */
module KeyDirective {
  import opened Base
  import opened JsText
  import opened Url
  import opened Playlist
  import opened SegmentCipher

  /** The characters `.` refuses to match. */
  predicate IsLineTerminator(c: char)
  {
    c == '\n' || c == '\r' || c == '\U{2028}' || c == '\U{2029}'
  }

  /** `\s`: the ECMAScript WhiteSpace and LineTerminator characters. */
  predicate IsJsSpace(c: char)
  {
    c == '\t' || c == '\n' || c == '\U{B}' || c == '\U{C}' || c == '\r' || c == ' '
    || c == '\U{A0}' || c == '\U{1680}' || ('\U{2000}' <= c <= '\U{200A}')
    || c == '\U{2028}' || c == '\U{2029}' || c == '\U{202F}' || c == '\U{205F}'
    || c == '\U{3000}' || c == '\U{FEFF}'
  }

  /** `NAME=([^,\s]+)` (Bare) or `NAME="([^"]+)"` (Quoted); `name` includes
      the `=` and, for Quoted, the opening quote. */
  datatype Pattern = Bare(name: string) | Quoted(name: string)

  const MethodPattern := Bare("METHOD=")
  const UriPattern := Quoted("URI=\"")
  const IvPattern := Bare("IV=")

  /** A name that a line terminator cannot start; all three above are. */
  predicate ValidPattern(pat: Pattern)
  {
    |pat.name| > 0 && !IsLineTerminator(pat.name[0])
  }

  /** The characters the capture group cannot contain. */
  predicate StopsValue(pat: Pattern, c: char)
  {
    if pat.Quoted? then c == '"' else c == ',' || IsJsSpace(c)
  }

  /** Length of the greedy run of value characters starting at `start`. */
  function ValueLength(text: string, pat: Pattern, start: nat): (n: nat)
    requires start <= |text|
    ensures start + n <= |text|
    decreases |text| - start
  {
    if start == |text| || StopsValue(pat, text[start]) then 0
    else 1 + ValueLength(text, pat, start + 1)
  }

  /** The run is maximal: value characters all through, then a stop
      character or the end of the text. */
  lemma {:induction false} ValueLengthMaximal(text: string, pat: Pattern, start: nat)
    requires start <= |text|
    ensures var n := ValueLength(text, pat, start);
            && (forall i :: start <= i < start + n ==> !StopsValue(pat, text[i]))
            && (start + n == |text| || StopsValue(pat, text[start + n]))
    decreases |text| - start
  {
    if start < |text| && !StopsValue(pat, text[start]) {
      ValueLengthMaximal(text, pat, start + 1);
    }
  }

  /** The captured value when the pattern's NAME sits at position `k`, or
      None when the pattern cannot match there: the value is empty, or (for
      URI) no closing quote follows it. */
  function MatchAt(text: string, pat: Pattern, k: nat): Option<string>
    requires k <= |text|
  {
    var start := k + |pat.name|;
    if start > |text| || text[k..start] != pat.name then None
    else
      var n := ValueLength(text, pat, start);
      if n == 0 then None
      else if pat.Quoted? && start + n == |text| then None
      else Some(text[start..start + n])
  }

  /** The position of the first line terminator at or after `k`, or the end
      of the text: where the line holding position `k` ends. */
  function LineEnd(text: string, k: nat): (e: nat)
    requires k <= |text|
    ensures k <= e <= |text|
    decreases |text| - k
  {
    if k == |text| || IsLineTerminator(text[k]) then k else LineEnd(text, k + 1)
  }

  /** Every position up to the end of a line belongs to the same line. */
  lemma {:induction false} LineEndSameLine(text: string, k: nat, j: nat)
    requires k <= |text| && k <= j < LineEnd(text, k)
    ensures LineEnd(text, j) == LineEnd(text, k)
    decreases j - k
  {
    if k < j {
      LineEndSameLine(text, k + 1, j);
    }
  }

  /** The first position at or after `from` where the pattern matches. */
  function FirstMatch(text: string, pat: Pattern, from: nat): (r: Option<nat>)
    requires from <= |text|
    ensures r.Some? ==> from <= r.value < |text| && MatchAt(text, pat, r.value).Some?
    decreases |text| - from
  {
    if from == |text| then None
    else if MatchAt(text, pat, from).Some? then Some(from)
    else FirstMatch(text, pat, from + 1)
  }

  lemma {:induction false} FirstMatchMinimal(text: string, pat: Pattern, from: nat)
    requires from <= |text|
    ensures var r := FirstMatch(text, pat, from);
            forall j :: from <= j < |text| && (r.None? || j < r.value) ==> MatchAt(text, pat, j).None?
    decreases |text| - from
  {
    if from < |text| && MatchAt(text, pat, from).None? {
      FirstMatchMinimal(text, pat, from + 1);
    }
  }

  /** The last position in `[lo, hi)` where the pattern matches; `lo` is one. */
  function LastMatch(text: string, pat: Pattern, lo: nat, hi: nat): (r: nat)
    requires lo < hi <= |text|
    requires MatchAt(text, pat, lo).Some?
    ensures lo <= r < hi && MatchAt(text, pat, r).Some?
    decreases hi
  {
    if MatchAt(text, pat, hi - 1).Some? then hi - 1 else LastMatch(text, pat, lo, hi - 1)
  }

  lemma {:induction false} LastMatchMaximal(text: string, pat: Pattern, lo: nat, hi: nat)
    requires lo < hi <= |text|
    requires MatchAt(text, pat, lo).Some?
    ensures NoMatchBetween(text, pat, LastMatch(text, pat, lo, hi), hi)
    decreases hi
  {
    if MatchAt(text, pat, hi - 1).None? {
      LastMatchMaximal(text, pat, lo, hi - 1);
      NoMatchExtend(text, pat, LastMatch(text, pat, lo, hi - 1), hi);
    }
  }

  /** No match strictly between positions `a` and `b`. */
  ghost predicate NoMatchBetween(text: string, pat: Pattern, a: nat, b: nat)
    requires b <= |text|
  {
    forall j :: a < j < b ==> MatchAt(text, pat, j).None?
  }

  /** A position without a match extends a match-free stretch by one. */
  lemma NoMatchExtend(text: string, pat: Pattern, a: nat, b: nat)
    requires a < b <= |text| && NoMatchBetween(text, pat, a, b - 1) && MatchAt(text, pat, b - 1).None?
    ensures NoMatchBetween(text, pat, a, b)
  {
  }

  /** Where the regex engine places NAME: the leftmost match begins at the
      start of the first line with an occurrence, and backtracking from the
      end of that line stops at its last occurrence. */
  function MatchPosition(text: string, pat: Pattern): (r: Option<nat>)
    requires ValidPattern(pat)
    ensures r.Some? ==> r.value < |text| && MatchAt(text, pat, r.value).Some?
  {
    match FirstMatch(text, pat, 0)
    case None => None
    case Some(k0) =>
      assert text[k0] == pat.name[0];
      Some(LastMatch(text, pat, k0, LineEnd(text, k0)))
  }

  /** `(text.match(regex) || ['', '', ''])[2]`: the captured value, or ''
      when the regex does not match. */
  function Attribute(text: string, pat: Pattern): string
    requires ValidPattern(pat)
  {
    match MatchPosition(text, pat)
    case None => ""
    case Some(k) => MatchAt(text, pat, k).value
  }

  /** The regex's choice among the occurrences, stated without reference to
      how it is found: `k` is an occurrence, every earlier occurrence lies on
      the same line as `k`, and no later occurrence does. */
  ghost predicate IsRegexMatch(text: string, pat: Pattern, k: nat)
  {
    && k < |text|
    && MatchAt(text, pat, k).Some?
    && (forall j :: 0 <= j < k && MatchAt(text, pat, j).Some? ==> k < LineEnd(text, j))
    && (forall j :: k < j < LineEnd(text, k) ==> MatchAt(text, pat, j).None?)
  }

  /** At most one position fits that description. */
  lemma RegexMatchUnique(text: string, pat: Pattern, k1: nat, k2: nat)
    requires ValidPattern(pat)
    requires IsRegexMatch(text, pat, k1) && IsRegexMatch(text, pat, k2)
    ensures k1 == k2
  {
  }

  /** `MatchPosition` finds exactly the regex's choice, and finds nothing
      only when the pattern occurs nowhere. */
  lemma MatchPositionIsRegexMatch(text: string, pat: Pattern)
    requires ValidPattern(pat)
    ensures MatchPosition(text, pat).Some? ==> IsRegexMatch(text, pat, MatchPosition(text, pat).value)
    ensures MatchPosition(text, pat).None? ==> forall j :: 0 <= j <= |text| ==> MatchAt(text, pat, j).None?
  {
    FirstMatchMinimal(text, pat, 0);
    match FirstMatch(text, pat, 0)
    case None =>
    case Some(k0) =>
      assert text[k0] == pat.name[0];
      var e := LineEnd(text, k0);
      var k := LastMatch(text, pat, k0, e);
      LastMatchMaximal(text, pat, k0, e);
      LineEndSameLine(text, k0, k);
      forall j | 0 <= j < k && MatchAt(text, pat, j).Some?
        ensures k < LineEnd(text, j)
      {
        LineEndSameLine(text, k0, j);
      }
  }

  /** What `Attribute` returns, in the regex's terms: '' exactly when the
      attribute occurs nowhere, otherwise the value at the regex's choice. */
  lemma AttributeSpec(text: string, pat: Pattern, k: nat)
    requires ValidPattern(pat)
    ensures Attribute(text, pat) == "" <==> forall j :: 0 <= j <= |text| ==> MatchAt(text, pat, j).None?
    ensures IsRegexMatch(text, pat, k) ==> Attribute(text, pat) == MatchAt(text, pat, k).value
  {
    MatchPositionIsRegexMatch(text, pat);
    if MatchPosition(text, pat).Some? {
      var p := MatchPosition(text, pat).value;
      assert MatchAt(text, pat, p).value != "";
      if IsRegexMatch(text, pat, k) {
        RegexMatchUnique(text, pat, k, p);
      }
    }
  }

  lemma NoMatchMeansEmpty(text: string, pat: Pattern)
    requires ValidPattern(pat)
    requires forall j :: 0 <= j <= |text| ==> MatchAt(text, pat, j).None?
    ensures Attribute(text, pat) == ""
  {
    AttributeSpec(text, pat, 0);
  }

  /** With a single occurrence of the attribute anywhere in the text, the
      value is simply the one after that NAME. */
  lemma SingleOccurrence(text: string, pat: Pattern, k: nat)
    requires ValidPattern(pat)
    requires k < |text| && MatchAt(text, pat, k).Some?
    requires forall j :: 0 <= j < |text| && j != k ==> MatchAt(text, pat, j).None?
    ensures Attribute(text, pat) == MatchAt(text, pat, k).value
  {
    MatchPositionIsRegexMatch(text, pat);
    AttributeSpec(text, pat, k);
    assert MatchPosition(text, pat).Some?;
  }

  const KeyTag := "#EXT-X-KEY"

  /** What `prepareDownload` returns (`aesConf`), plus whether it logged the
      "M3u8 is empty" message. */
  datatype Prepared = Prepared(aesConf: AesConf, emptyWarning: bool)

  /** The key request of `getAesConf`: what `urllib.curl(uri)` resolves to,
      or None when the request fails (which rejects `prepareDownload`).
      `getAesConf` stores that whole response as `aesConf.key` and hands it
      to `expandKey`, not its `data` field; the model carries it as an opaque
      value of the cipher's key type and does not claim it is the bytes of
      the key file. */
  type KeyFetch = string -> Option<Bytes>

  /** `prepareDownload(tsUrlList, m3u8Str, url)` with its declared
      parameters. */
  function PrepareDownload(tsUrlList: seq<string>, m3u8Str: string, url: string, fetchKey: KeyFetch)
    : (r: Result<Prepared, string>)
    ensures !Contains(m3u8Str, KeyTag) ==> r == Success(Prepared(NoKey, |tsUrlList| == 0))
    ensures Contains(m3u8Str, KeyTag) ==>
              var uri := ApplyUrl(Attribute(m3u8Str, UriPattern), url);
              && (r.Failure? <==> fetchKey(uri).None?)
              && (r.Success? ==> && r.value.aesConf.uri == uri
                                 && r.value.aesConf.uri != ""
                                 && Some(r.value.aesConf.key) == fetchKey(uri)
                                 && r.value.aesConf.methodName == Attribute(m3u8Str, MethodPattern)
                                 && r.value.emptyWarning == (|tsUrlList| == 0))
    ensures r.Success? ==>
              var ivText := if Contains(m3u8Str, KeyTag) then Attribute(m3u8Str, IvPattern) else "";
              var iv := r.value.aesConf.iv;
              && (iv == [] <==> ivText == "")
              && |iv| >= |ivText|
              && (|iv| == |ivText| <==> IsAscii(ivText))
              && (ivText != "" ==> iv == Utf8Encode(ivText))
  {
    if Contains(m3u8Str, KeyTag) then
      var methodName := Attribute(m3u8Str, MethodPattern);
      var uriText := Attribute(m3u8Str, UriPattern);
      var ivText := Attribute(m3u8Str, IvPattern);
      // `aesConf.iv ? stringToBuffer(aesConf.iv) : ''`: the literal text
      // bytes (TextEncoder), not a hex decoding.
      var iv := if ivText != "" then Utf8Encode(ivText) else [];
      Utf8EncodeLength(ivText);
      var uri := ApplyUrl(uriText, url);
      match fetchKey(uri)
      case None => Failure("key request failed")
      case Some(key) => Success(Prepared(AesConf(methodName, uri, iv, key), |tsUrlList| == 0))
    else
      Success(Prepared(NoKey, |tsUrlList| == 0))
  }

  /** With the tag present, a METHOD attribute that occurs nowhere is left
      as ''. */
  lemma MissingMethodIsEmpty(tsUrlList: seq<string>, m3u8Str: string, url: string, fetchKey: KeyFetch)
    requires Contains(m3u8Str, KeyTag)
    requires forall j :: 0 <= j <= |m3u8Str| ==> MatchAt(m3u8Str, MethodPattern, j).None?
    ensures var r := PrepareDownload(tsUrlList, m3u8Str, url, fetchKey);
            r.Success? ==> r.value.aesConf.methodName == ""
  {
    NoMatchMeansEmpty(m3u8Str, MethodPattern);
  }

  /** With the tag present, an IV attribute that occurs nowhere leaves no
      declared IV, so each segment falls back to its index-derived IV. */
  lemma MissingIvFallsBack(tsUrlList: seq<string>, m3u8Str: string, url: string, fetchKey: KeyFetch, index: nat)
    requires Contains(m3u8Str, KeyTag)
    requires forall j :: 0 <= j <= |m3u8Str| ==> MatchAt(m3u8Str, IvPattern, j).None?
    ensures var r := PrepareDownload(tsUrlList, m3u8Str, url, fetchKey);
            r.Success? ==> r.value.aesConf.iv == [] && SegmentIv(r.value.aesConf, index) == FallbackIv(index)
  {
    NoMatchMeansEmpty(m3u8Str, IvPattern);
  }

  /** A URI attribute that occurs nowhere is still resolved: `applyURL('',
      url)` is the playlist's directory followed by '/', so the key is
      requested from that directory and every segment is run through the
      cipher, for instance under `#EXT-X-KEY:METHOD=NONE`. */
  lemma MissingUriStillDecrypts(tsUrlList: seq<string>, m3u8Str: string, url: string,
                                fetchKey: KeyFetch, cipher: Cipher, file: Bytes, index: nat)
    requires Contains(m3u8Str, KeyTag)
    requires forall j :: 0 <= j <= |m3u8Str| ==> MatchAt(m3u8Str, UriPattern, j).None?
    ensures var r := PrepareDownload(tsUrlList, m3u8Str, url, fetchKey);
            r.Success? ==>
              && r.value.aesConf.uri == ApplyUrl("", url)
              && SegmentData(file, index, r.value.aesConf, cipher) == AesDecrypt(file, index, r.value.aesConf, cipher)
  {
    NoMatchMeansEmpty(m3u8Str, UriPattern);
  }

  /** `prepareDownload` as the fix would have it: a URI is resolved, and the
      key requested, only when the directive names one. */
  function PrepareDownloadFixed(tsUrlList: seq<string>, m3u8Str: string, url: string, fetchKey: KeyFetch)
    : (r: Result<Prepared, string>)
  {
    if Contains(m3u8Str, KeyTag) && Attribute(m3u8Str, UriPattern) != "" then
      PrepareDownload(tsUrlList, m3u8Str, url, fetchKey)
    else if Contains(m3u8Str, KeyTag) then
      var ivText := Attribute(m3u8Str, IvPattern);
      Success(Prepared(AesConf(Attribute(m3u8Str, MethodPattern), "",
                               if ivText != "" then Utf8Encode(ivText) else [], []),
                       |tsUrlList| == 0))
    else
      Success(Prepared(NoKey, |tsUrlList| == 0))
  }

  /** The fix leaves segments untouched when no URI is declared, and agrees
      with the original whenever one is. */
  lemma FixedMissingUriPassesThrough(tsUrlList: seq<string>, m3u8Str: string, url: string,
                                     fetchKey: KeyFetch, cipher: Cipher, file: Bytes, index: nat)
    ensures (forall j :: 0 <= j <= |m3u8Str| ==> MatchAt(m3u8Str, UriPattern, j).None?) ==>
              && PrepareDownloadFixed(tsUrlList, m3u8Str, url, fetchKey).Success?
              && SegmentData(file, index, PrepareDownloadFixed(tsUrlList, m3u8Str, url, fetchKey).value.aesConf, cipher) == file
    ensures (exists j :: 0 <= j <= |m3u8Str| && MatchAt(m3u8Str, UriPattern, j).Some?) ==>
              PrepareDownloadFixed(tsUrlList, m3u8Str, url, fetchKey) == PrepareDownload(tsUrlList, m3u8Str, url, fetchKey)
  {
    AttributeSpec(m3u8Str, UriPattern, 0);
  }

  /** A JavaScript value as far as strict equality needs: a string or one of
      the progress records. */
  datatype JsValue = Str(s: string) | Record(segment: Segment)

  /** An array of progress records, as JavaScript values. */
  function Records(list: seq<Segment>): (vs: seq<JsValue>)
    ensures |vs| == |list|
    ensures forall i :: 0 <= i < |list| ==> vs[i] == Record(list[i])
  {
    if |list| == 0 then [] else [Record(list[0])] + Records(list[1..])
  }

  /** `prepareDownload` as `start` calls it: `prepareDownload(tsUrlList,
      finishList, m3u8, url)` against the declaration `(tsUrlList, m3u8Str,
      url)`. `m3u8Str` is then the array of progress records and `url` the
      playlist text; the extra argument is dropped. */
  function PrepareDownloadAsWired(tsUrlList: seq<string>, finishList: seq<Segment>, m3u8: string, url: string)
    : (r: Result<Prepared, string>)
    ensures r == Success(Prepared(NoKey, |tsUrlList| == 0))
  {
    var m3u8Str := Records(finishList);
    if IndexOf(m3u8Str, Str(KeyTag)) > -1 then
      // An array has no `match` method: the TypeError rejects the call.
      Failure("TypeError: m3u8Str.match is not a function")
    else
      Success(Prepared(NoKey, |tsUrlList| == 0))
  }

  /** As wired, no playlist ever switches decryption on: every segment is
      kept exactly as fetched, even when the declared function would have
      decrypted it. */
  lemma WiredNeverDecrypts(tsUrlList: seq<string>, finishList: seq<Segment>, m3u8: string, url: string,
                           cipher: Cipher, file: Bytes, index: nat)
    ensures var r := PrepareDownloadAsWired(tsUrlList, finishList, m3u8, url);
            r.Success? && SegmentData(file, index, r.value.aesConf, cipher) == file
  {
  }

  /** Called with its declared parameters, a playlist carrying the tag has
      every segment run through the decryptor, keyed with what the key
      request returned. */
  lemma DeclaredCallDecrypts(tsUrlList: seq<string>, m3u8Str: string, url: string, fetchKey: KeyFetch,
                             cipher: Cipher, file: Bytes, index: nat)
    requires Contains(m3u8Str, KeyTag)
    ensures var r := PrepareDownload(tsUrlList, m3u8Str, url, fetchKey);
            r.Success? ==> SegmentData(file, index, r.value.aesConf, cipher)
                           == cipher(r.value.aesConf.key, SegmentIv(r.value.aesConf, index), file)
  {
  }
}
