/** The top level of a download: `start` either resumes from the saved
    progress record, reading the finished segment files back, or parses a
    freshly downloaded playlist; it then prepares the key and dispatches one
    `downloadTsSeg` call per playlist entry. */
module Session {
  import opened Base
  import opened JsText
  import opened Url
  import opened Playlist
  import opened SegmentCipher
  import opened KeyDirective
  import opened Downloader

  /** The saved `progress.json`: the playlist text and the segment records. */
  datatype Progress = Progress(m3u8: string, list: seq<Segment>)

  /** The segment files in the working directory: index `i` maps to the bytes
      of `<filename>_<i>.ts`; an index missing from the map has no file. */
  type SegmentFiles = map<nat, Bytes>

  /** A record list as the downloader saves it: each record is numbered by its
      position. */
  predicate Numbered(list: seq<Segment>)
  {
    forall i :: 0 <= i < |list| ==> list[i].index == i
  }

  /** `progress.list.map(({ url }) => url)`. */
  function Urls(list: seq<Segment>): (urls: seq<string>)
    ensures |urls| == |list|
    ensures forall i :: 0 <= i < |list| ==> urls[i] == list[i].url
  {
    if |list| == 0 then [] else [list[0].url] + Urls(list[1..])
  }

  /** The resume loop from record `from` on: each done record is counted and
      its file read back into the payload array at the record's own index. A
      missing file makes `readFile` throw, which rejects `start`. */
  function Reload(list: seq<Segment>, files: SegmentFiles, from: nat, a: MediaArray, finishNum: nat)
    : Result<(MediaArray, nat), string>
    requires from <= |list|
    decreases |list| - from
  {
    if from == |list| then Success((a, finishNum))
    else if !list[from].done then Reload(list, files, from + 1, a, finishNum)
    else if list[from].index !in files then Failure("ENOENT: no segment file")
    else Reload(list, files, from + 1, ArraySet(a, list[from].index, files[list[from].index]), finishNum + 1)
  }

  /** Bytes of the done records' files, over the whole list; records with no
      file count nothing. */
  function ReloadedBytes(list: seq<Segment>, files: SegmentFiles): nat
  {
    if |list| == 0 then 0
    else
      var last := list[|list| - 1];
      ReloadedBytes(list[..|list| - 1], files)
        + (if last.done && last.index in files then |files[last.index]| else 0)
  }

  /** Every done record has its segment file. */
  predicate FilesPresent(list: seq<Segment>, files: SegmentFiles)
  {
    forall i :: 0 <= i < |list| && list[i].done ==> list[i].index in files
  }

  /** The resume branch of `start` as written: the lists come from the saved
      record, `finishNum` counts the done records, but `mediaFileLength` stays
      at its initial 0. */
  function Resume(p: Progress, files: SegmentFiles): Result<State, string>
  {
    match Reload(p.list, files, 0, [], 0)
    case Failure(e) => Failure(e)
    case Success((a, n)) => Success(State(Urls(p.list), p.list, a, n, 0, []))
  }

  /** What the fix adds after the resume loop: the reloaded bytes are
      counted into `mediaFileLength`, and when every segment is already done
      the output is written straight away, since no `downloadTsSeg` call
      will. */
  function CountReloaded(s: State): Result<State, string>
  {
    var s1 := s.(mediaFileLength := TotalLength(s.mediaFileList));
    if s1.finishNum == |s1.tsUrlList| then
      match DownloadFile(s1)
      case Success(out) => Success(s1.(written := [out]))
      case Failure(e) => Failure(e)
    else Success(s1)
  }

  /** The resume branch as evidently intended. */
  function ResumeFixed(p: Progress, files: SegmentFiles): Result<State, string>
  {
    match Resume(p, files)
    case Failure(e) => Failure(e)
    case Success(s) => CountReloaded(s)
  }

  /** What the resume loop keeps for the records before `from` of a
      numbered list: a payload exactly at the done ones, holding that
      record's file, their count, and their byte total. */
  ghost predicate ReloadInv(list: seq<Segment>, files: SegmentFiles, from: nat, a: MediaArray, n: nat)
    requires from <= |list|
  {
    && |a| <= from
    && (forall i :: 0 <= i < from ==> (list[i].done <==> i < |a| && a[i].Some?))
    && (forall i :: 0 <= i < |a| && a[i].Some? ==> i in files && a[i] == Some(files[i]))
    && n == CountDone(list[..from])
    && TotalLength(a) == ReloadedBytes(list[..from], files)
  }

  /** One turn of the resume loop keeps its invariant. */
  lemma ReloadStep(list: seq<Segment>, files: SegmentFiles, from: nat, a: MediaArray, n: nat)
    requires Numbered(list) && from < |list| && ReloadInv(list, files, from, a, n)
    requires list[from].done ==> from in files
    ensures !list[from].done ==> ReloadInv(list, files, from + 1, a, n)
    ensures list[from].done ==> ReloadInv(list, files, from + 1, ArraySet(a, from, files[from]), n + 1)
  {
    var seg := list[from];
    assert list[..from + 1] == list[..from] + [seg];
    assert list[..from + 1][..from] == list[..from];
    CountDoneAppend(list[..from], [seg]);
    assert CountDone([seg]) == if seg.done then 1 else 0 by {
      assert [seg][1..] == [];
    }
    if seg.done {
      TotalLengthSet(a, from, files[from]);
    }
  }

  /** Every done record from `from` on has its segment file. */
  predicate FilesFrom(list: seq<Segment>, files: SegmentFiles, from: nat)
  {
    forall i :: from <= i < |list| && list[i].done ==> i in files
  }

  /** The files needed from `from` on are the one at `from`, if its record
      is done, and those from the next record on. */
  lemma FilesFromStep(list: seq<Segment>, files: SegmentFiles, from: nat)
    requires from < |list|
    ensures FilesFrom(list, files, from) <==> (list[from].done ==> from in files) && FilesFrom(list, files, from + 1)
  {
  }

  /** The resume loop over a numbered list fails exactly when a done record
      from `from` on has no file; otherwise its invariant holds over the
      whole list. */
  lemma {:induction false} ReloadSpec(list: seq<Segment>, files: SegmentFiles, from: nat, a: MediaArray, n: nat)
    requires Numbered(list) && from <= |list| && ReloadInv(list, files, from, a, n)
    ensures var r := Reload(list, files, from, a, n);
            && (r.Success? <==> FilesFrom(list, files, from))
            && (r.Success? ==> ReloadInv(list, files, |list|, r.value.0, r.value.1))
    decreases |list| - from
  {
    if from < |list| {
      var seg := list[from];
      FilesFromStep(list, files, from);
      if !seg.done {
        ReloadStep(list, files, from, a, n);
        ReloadSpec(list, files, from + 1, a, n);
      } else if seg.index in files {
        ReloadStep(list, files, from, a, n);
        ReloadSpec(list, files, from + 1, ArraySet(a, from, files[from]), n + 1);
      }
    }
  }

  /** The state the resume branch builds once the loop has run over the
      whole list. */
  lemma ReloadedState(list: seq<Segment>, files: SegmentFiles, a: MediaArray, n: nat)
    requires Numbered(list) && ReloadInv(list, files, |list|, a, n)
    ensures var s := State(Urls(list), list, a, n, 0, []);
            && Consistent(s)
            && n == CountDone(list)
            && (forall i :: 0 <= i < |list| && list[i].done ==> a[i] == Some(files[i]))
            && Deficit(s) == ReloadedBytes(list, files)
  {
    assert list[..|list|] == list;
  }

  /** What resuming from a numbered record yields: it fails exactly when a
      done record's file is missing; otherwise the bookkeeping is consistent,
      each done record holds its own file, `finishNum` counts them, and the
      deficit is exactly the bytes read back from disk. */
  lemma ResumeSpec(p: Progress, files: SegmentFiles)
    requires Numbered(p.list)
    ensures Resume(p, files).Success? <==> FilesPresent(p.list, files)
    ensures Resume(p, files).Success? ==>
              var s := Resume(p, files).value;
              && Consistent(s)
              && s.finishList == p.list
              && s.tsUrlList == Urls(p.list)
              && s.written == []
              && s.finishNum == CountDone(p.list)
              && (forall i :: 0 <= i < |p.list| && p.list[i].done ==> s.mediaFileList[i] == Some(files[i]))
              && Deficit(s) == ReloadedBytes(p.list, files)
  {
    assert p.list[..0] == [];
    ReloadSpec(p.list, files, 0, [], 0);
    var r := Reload(p.list, files, 0, [], 0);
    assert FilesPresent(p.list, files) <==> FilesFrom(p.list, files, 0);
    if r.Success? {
      var (a, n) := r.value;
      ReloadedState(p.list, files, a, n);
      assert Resume(p, files) == Success(State(Urls(p.list), p.list, a, n, 0, []));
    }
  }

  /** Counting every stored byte keeps the bookkeeping consistent and
      leaves no deficit. */
  lemma CountStoredBytes(s: State)
    requires Consistent(s)
    ensures Consistent(s.(mediaFileLength := TotalLength(s.mediaFileList)))
    ensures Deficit(s.(mediaFileLength := TotalLength(s.mediaFileList))) == 0
  {
  }

  /** With no deficit and every record done, `downloadFile` builds exactly
      the payloads concatenated in index order. */
  lemma FullOutput(s: State)
    requires Consistent(s) && Deficit(s) == 0 && AllDone(s.finishList)
    ensures Unwrap(s.mediaFileList).Some?
    ensures DownloadFile(s) == Success(Flatten(Unwrap(s.mediaFileList).value))
  {
    AllDoneOutput(s);
    var out := Flatten(Unwrap(s.mediaFileList).value);
    assert out[..|out| - 0] == out;
  }

  /** The fix's step on a consistent state that has written nothing: it
      keeps the payloads and leaves no deficit; with every record done it
      writes their full concatenation, otherwise nothing. */
  lemma CountReloadedSpec(s: State)
    requires Consistent(s) && s.written == []
    ensures CountReloaded(s).Success?
    ensures var r := CountReloaded(s).value;
            && Consistent(r)
            && Deficit(r) == 0
            && r.finishList == s.finishList
            && r.mediaFileList == s.mediaFileList
            && (AllDone(s.finishList) ==>
                  Unwrap(r.mediaFileList).Some? && r.written == [Flatten(Unwrap(r.mediaFileList).value)])
            && (!AllDone(s.finishList) ==> r.written == [])
  {
    CountStoredBytes(s);
    CountDoneFull(s.finishList);
    var s1 := s.(mediaFileLength := TotalLength(s.mediaFileList));
    if AllDone(s.finishList) {
      FullOutput(s1);
    }
  }

  /** The fixed resume: it fails under the same condition as the resume as
      written; otherwise the bookkeeping is consistent with no deficit, and
      the output, the full concatenation, is written at once exactly when
      every record is done. */
  lemma ResumeFixedSpec(p: Progress, files: SegmentFiles)
    requires Numbered(p.list)
    ensures ResumeFixed(p, files).Success? <==> FilesPresent(p.list, files)
    ensures ResumeFixed(p, files).Success? ==>
              var s := ResumeFixed(p, files).value;
              && Consistent(s)
              && s.finishList == p.list
              && Deficit(s) == 0
              && (forall i :: 0 <= i < |p.list| && p.list[i].done ==> s.mediaFileList[i] == Some(files[i]))
              && (AllDone(p.list) ==>
                    Unwrap(s.mediaFileList).Some? && s.written == [Flatten(Unwrap(s.mediaFileList).value)])
              && (!AllDone(p.list) ==> s.written == [])
  {
    ResumeSpec(p, files);
    if Resume(p, files).Success? {
      var s0 := Resume(p, files).value;
      assert ResumeFixed(p, files) == CountReloaded(s0);
      CountReloadedSpec(s0);
    }
  }

  /** As written, a resumed download that writes its output writes the
      payloads in index order with as many bytes cut off the end as were read
      back from disk, whatever the later attempts: `mediaFileLength` never
      counted the reloaded files. */
  lemma ResumedOutputIsTruncated(p: Progress, files: SegmentFiles, conf: AesConf, cipher: Cipher,
                                 attempts: seq<Attempt>)
    requires Numbered(p.list) && FilesPresent(p.list, files)
    ensures Resume(p, files).Success?
    ensures var f := Run(Resume(p, files).value, conf, cipher, attempts);
            || f.written == []
            || (&& Unwrap(f.mediaFileList).Some?
                && var out := Flatten(Unwrap(f.mediaFileList).value);
                   && ReloadedBytes(p.list, files) <= |out|
                   && f.written == [out[..|out| - ReloadedBytes(p.list, files)]])
  {
    ResumeSpec(p, files);
    RunOutput(Resume(p, files).value, conf, cipher, attempts);
  }

  /** With the fix, the output a resumed download writes, either at once or
      after later attempts, is the payloads concatenated in index order, in
      full. */
  lemma ResumedFixedOutputIsComplete(p: Progress, files: SegmentFiles, conf: AesConf, cipher: Cipher,
                                     attempts: seq<Attempt>)
    requires Numbered(p.list) && FilesPresent(p.list, files)
    ensures ResumeFixed(p, files).Success?
    ensures var f := Run(ResumeFixed(p, files).value, conf, cipher, attempts);
            || f.written == []
            || (&& Unwrap(f.mediaFileList).Some?
                && f.written == [Flatten(Unwrap(f.mediaFileList).value)])
  {
    ResumeFixedSpec(p, files);
    var s := ResumeFixed(p, files).value;
    if AllDone(p.list) {
      RunAllDoneIsStuck(s, conf, cipher, attempts);
    } else {
      RunOutput(s, conf, cipher, attempts);
      var f := Run(s, conf, cipher, attempts);
      if f.written != [] {
        var out := Flatten(Unwrap(f.mediaFileList).value);
        assert out[..|out| - 0] == out;
      }
    }
  }

  /** One finished three-byte segment on disk and one two-byte segment still
      to fetch: as written the output is the first two bytes only; with the
      fix it is all five. */
  lemma ResumeTruncationExample(p: Progress, files: SegmentFiles, cipher: Cipher, attempts: seq<Attempt>)
    requires p.list == [Segment("a.ts", true, 0), Segment("b.ts", false, 1)]
    requires files == map[0 := [1, 2, 3]]
    requires attempts == [Attempt(1, Fetched([9, 9]))]
    ensures Resume(p, files).Success? && ResumeFixed(p, files).Success?
    ensures Run(Resume(p, files).value, NoKey, cipher, attempts).written == [[1, 2]]
    ensures Run(ResumeFixed(p, files).value, NoKey, cipher, attempts).written == [[1, 2, 3, 9, 9]]
  {
    var a: MediaArray := [Some([1, 2, 3])];
    assert ArraySet([], 0, [1, 2, 3]) == a;
    assert Reload(p.list, files, 0, [], 0) == Reload(p.list, files, 1, a, 1);
    assert Reload(p.list, files, 1, a, 1) == Reload(p.list, files, 2, a, 1);
    assert Resume(p, files) == Success(State(Urls(p.list), p.list, a, 1, 0, []));
    var full: MediaArray := [Some([1, 2, 3]), Some([9, 9])];
    assert ArraySet(a, 1, [9, 9]) == full;
    assert Flatten([[1, 2, 3], [9, 9]]) == [1, 2, 3, 9, 9] by {
      assert Flatten([[9, 9]]) == [9, 9] by { assert Flatten([]) == []; }
    }
    assert Unwrap(full) == Some([[1, 2, 3], [9, 9]]) by {
      assert full[0].Some? && full[1].Some?;
      var u := Unwrap(full).value;
      assert full[0] == Some(u[0]) && full[1] == Some(u[1]);
      assert |u| == 2 && u == [u[0], u[1]];
    }
    assert FitTo([1, 2, 3, 9, 9], 2) == [1, 2];
    assert FitTo([1, 2, 3, 9, 9], 5) == [1, 2, 3, 9, 9];
    assert TotalLength(a) == 3;
  }

  /** As written, resuming a record in which every segment is done never
      writes the output: every later attempt finds its segment done. */
  lemma ResumedAllDoneNeverWrites(p: Progress, files: SegmentFiles, conf: AesConf, cipher: Cipher,
                                  attempts: seq<Attempt>)
    requires Numbered(p.list) && FilesPresent(p.list, files) && AllDone(p.list)
    ensures Resume(p, files).Success?
    ensures Run(Resume(p, files).value, conf, cipher, attempts).written == []
  {
    ResumeSpec(p, files);
    RunAllDoneIsStuck(Resume(p, files).value, conf, cipher, attempts);
  }

  /** The segment files of indices `0..n`, in order. */
  function DiskFiles(n: nat, files: SegmentFiles): (fs: seq<Bytes>)
    requires forall i :: 0 <= i < n ==> i in files
    ensures |fs| == n && forall i :: 0 <= i < n ==> fs[i] == files[i]
  {
    seq(n, i requires 0 <= i < n => files[i])
  }

  /** With the fix, resuming a record in which every segment is done writes
      the segment files concatenated in index order straight away. */
  lemma ResumedFixedAllDoneWrites(p: Progress, files: SegmentFiles)
    requires Numbered(p.list) && FilesPresent(p.list, files) && AllDone(p.list)
    ensures forall i :: 0 <= i < |p.list| ==> i in files
    ensures ResumeFixed(p, files).Success?
    ensures ResumeFixed(p, files).value.written == [Flatten(DiskFiles(|p.list|, files))]
  {
    ResumeFixedSpec(p, files);
    var s := ResumeFixed(p, files).value;
    AllDoneNoHoles(s);
    assert forall i :: 0 <= i < |p.list| ==> i in files by {
      forall i | 0 <= i < |p.list| ensures i in files { assert p.list[i].done; }
    }
    var ps := Unwrap(s.mediaFileList).value;
    assert ps == DiskFiles(|p.list|, files) by {
      forall i | 0 <= i < |p.list| ensures ps[i] == files[i] {
        assert p.list[i].done;
      }
    }
  }

  /** Lists shaped as `parseM3u8` returns them: one fresh record per URL,
      numbered by position. */
  predicate ParserShaped(p: Parsed)
  {
    && |p.finishList| == |p.tsUrlList|
    && forall k :: 0 <= k < |p.finishList| ==> p.finishList[k] == Segment(p.tsUrlList[k], false, k)
  }

  /** A first run starts consistent, with nothing done and no deficit. */
  lemma FreshIsConsistent(p: Parsed)
    requires ParserShaped(p)
    ensures Consistent(Fresh(p)) && Deficit(Fresh(p)) == 0
    ensures forall i :: 0 <= i < |p.finishList| ==> !Fresh(p).finishList[i].done
  {
    CountDoneNone(p.finishList);
  }

  /** What `start` hands to the dispatch loop: the downloader state, the
      playlist text, and the key configuration `prepareDownload` returned. */
  datatype Started = Started(state: State, m3u8: string, aesConf: AesConf)

  /** `start(url, filename)`. A saved record with segments and playlist text
      is resumed; otherwise the playlist `downloaded` from `url` is parsed.
      The key is then prepared with the arguments `start` passes. */
  method Start(progress: Progress, files: SegmentFiles, downloaded: string, url: string)
    returns (r: Result<Started, string>)
    ensures |progress.list| > 0 && progress.m3u8 != "" ==>
              && (r.Success? <==> Resume(progress, files).Success?)
              && (r.Success? ==> r.value.state == Resume(progress, files).value
                                 && r.value.m3u8 == progress.m3u8)
    ensures !(|progress.list| > 0 && progress.m3u8 != "") ==>
              && r.Success?
              && r.value.m3u8 == downloaded
              && var s := r.value.state;
                 var lines := Split(downloaded, '\n');
                 var ps := SegmentPositions(lines, |lines|);
                 && Consistent(s) && Deficit(s) == 0 && s.written == []
                 && CountDone(s.finishList) == 0
                 && |s.tsUrlList| == |ps|
                 && (forall k :: 0 <= k < |ps| ==> s.tsUrlList[k] == ApplyUrl(lines[ps[k]], url))
                 && (forall k :: 0 <= k < |ps| ==> s.finishList[k] == Segment(s.tsUrlList[k], false, k))
    ensures r.Success? ==> r.value.aesConf == NoKey
  {
    var state: State;
    var m3u8: string;
    if |progress.list| > 0 && progress.m3u8 != "" {
      match Resume(progress, files)
      case Failure(e) => return Failure(e);
      case Success(s) => state := s;
      m3u8 := progress.m3u8;
    } else {
      m3u8 := downloaded;
      var parsed := ParseM3u8(m3u8, url);
      FreshIsConsistent(parsed);
      state := Fresh(parsed);
    }
    match PrepareDownloadAsWired(state.tsUrlList, state.finishList, m3u8, url)
    case Failure(e) => return Failure(e);
    case Success(prepared) => r := Success(Started(state, m3u8, prepared.aesConf));
  }

  /** The index the dispatch loop passes to `downloadTsSeg` for entry `k`:
      `tsUrlList.indexOf(tsUrl)`, the first position holding the same URL. */
  function Dispatch(urls: seq<string>): (ds: seq<nat>)
    ensures |ds| == |urls|
    ensures forall k :: 0 <= k < |urls| ==> ds[k] <= k && urls[ds[k]] == urls[k]
    ensures forall k, j :: 0 <= k < |urls| && 0 <= j < ds[k] ==> urls[j] != urls[k]
  {
    seq(|urls|, k requires 0 <= k < |urls| => IndexOf(urls, urls[k]) as nat)
  }

  /** The dispatch as evidently intended: entry `k` downloads segment `k`. */
  function DispatchByPosition(n: nat): seq<nat>
  {
    seq(n, k requires 0 <= k < n => k)
  }

  /** Dispatch by position names every segment exactly once. */
  lemma DispatchByPositionIsPermutation(n: nat)
    ensures IsPermutation(DispatchByPosition(n), n)
  {
    var ds := DispatchByPosition(n);
    forall i | 0 <= i < n ensures i in ds { assert ds[i] == i; }
  }

  /** Segment `j` is dispatched exactly when no earlier entry has its URL. */
  lemma DispatchedIffFirst(urls: seq<string>, j: nat)
    requires j < |urls|
    ensures j in Dispatch(urls) <==> forall i :: 0 <= i < j ==> urls[i] != urls[j]
  {
    var ds := Dispatch(urls);
    if forall i :: 0 <= i < j ==> urls[i] != urls[j] {
      assert ds[j] == j;
    }
  }

  /** With distinct URLs the dispatch is the intended one. */
  lemma DispatchDistinct(urls: seq<string>)
    requires forall i, j :: 0 <= i < j < |urls| ==> urls[i] != urls[j]
    ensures Dispatch(urls) == DispatchByPosition(|urls|)
  {
  }

  /** The dispatch names every segment exactly once precisely when the
      playlist's URLs are pairwise distinct. */
  lemma DispatchCoversIffDistinct(urls: seq<string>)
    ensures IsPermutation(Dispatch(urls), |urls|) <==> forall i, j :: 0 <= i < j < |urls| ==> urls[i] != urls[j]
  {
    if forall i, j :: 0 <= i < j < |urls| ==> urls[i] != urls[j] {
      DispatchDistinct(urls);
      DispatchByPositionIsPermutation(|urls|);
    } else {
      var i, j :| 0 <= i < j < |urls| && urls[i] == urls[j];
      DispatchedIffFirst(urls, j);
    }
  }

  /** Attempts that never name segment `j` leave it pending, so the output is
      never written. */
  lemma {:induction false} UndispatchedStaysPending(s: State, conf: AesConf, cipher: Cipher,
                                                    attempts: seq<Attempt>, j: nat)
    requires Consistent(s) && s.written == []
    requires j < |s.finishList| && !s.finishList[j].done
    requires forall t :: 0 <= t < |attempts| ==> attempts[t].index != j
    ensures j < |Run(s, conf, cipher, attempts).finishList|
    ensures !Run(s, conf, cipher, attempts).finishList[j].done
    ensures Run(s, conf, cipher, attempts).written == []
    decreases |attempts|
  {
    if |attempts| > 0 {
      var a := attempts[0];
      StepSpec(s, conf, cipher, a.index, a.fetch);
      var s1 := DownloadTsSeg(s, conf, cipher, a.index, a.fetch).state;
      assert a.index != j;
      assert !s1.finishList[j].done;
      assert s1.written == [];
      UndispatchedStaysPending(s1, conf, cipher, attempts[1..], j);
    }
  }

  /** As written, a playlist listing the same URL twice never completes when
      calls do not overlap: the later entry is dispatched to the earlier
      index, so once that index is done no run of dispatched attempts,
      retries included, writes the output. When the two calls for the index
      are in flight together, see `OverlappingDuplicatePads` and
      `OverlappingDuplicateLeavesHole`. */
  lemma DuplicateUrlStalls(p: Parsed, conf: AesConf, cipher: Cipher, attempts: seq<Attempt>, i: nat, j: nat)
    requires ParserShaped(p)
    requires i < j < |p.tsUrlList| && p.tsUrlList[i] == p.tsUrlList[j]
    requires forall t :: 0 <= t < |attempts| ==> attempts[t].index in Dispatch(p.tsUrlList)
    ensures Run(Fresh(p), conf, cipher, attempts).written == []
  {
    FreshIsConsistent(p);
    DispatchedIffFirst(p.tsUrlList, j);
    UndispatchedStaysPending(Fresh(p), conf, cipher, attempts, j);
  }

  /** Under the program's pool of concurrent calls, two calls for the same
      index can both pass the `done` guard before either request returns,
      and then both run the four updates of a success. The attempts of
      `Run` never overlap, so this composes `Store` directly. For the URLs
      "a, b, a" the dispatch is 0, 1, 0; with both calls for index 0 in
      flight together the count reaches three, and the output is the first
      two segments followed by as many zero bytes as the first one holds. */
  lemma OverlappingDuplicatePads(p: Parsed, d0: Bytes, d1: Bytes)
    requires ParserShaped(p) && |p.tsUrlList| == 3
    requires p.tsUrlList[0] == p.tsUrlList[2] != p.tsUrlList[1]
    ensures Dispatch(p.tsUrlList) == [0, 1, 0]
    ensures var s := Store(Store(Store(Fresh(p), 0, d0), 1, d1), 0, d0);
            && s.finishNum == |s.tsUrlList|
            && DownloadFile(s) == Success(d0 + d1 + Zeros(|d0|))
  {
    var ds := Dispatch(p.tsUrlList);
    assert ds[2] == 0;
    assert ds == [0, 1, 0];
    var s := Store(Store(Store(Fresh(p), 0, d0), 1, d1), 0, d0);
    var a: MediaArray := [Some(d0), Some(d1)];
    assert s.mediaFileList == a;
    assert Unwrap(a) == Some([d0, d1]) by {
      var u := Unwrap(a).value;
      assert |u| == 2 && u == [u[0], u[1]];
    }
    assert Flatten([d0, d1]) == d0 + d1 by {
      assert Flatten([d1]) == d1 + Flatten([]);
    }
    var total := |d0| + |d1| + |d0|;
    assert s.mediaFileLength == total;
    assert DownloadFile(s) == Success(FitTo(d0 + d1, total));
    assert FitTo(d0 + d1, total) == d0 + d1 + Zeros(|d0|);
  }

  /** For the URLs "a, a, b" the dispatch is 0, 0, 2; with both calls for
      index 0 in flight together the count reaches three while index 1 is
      still a hole, so `Buffer.concat` throws and no output is written. */
  lemma OverlappingDuplicateLeavesHole(p: Parsed, d0: Bytes, d2: Bytes)
    requires ParserShaped(p) && |p.tsUrlList| == 3
    requires p.tsUrlList[0] == p.tsUrlList[1] != p.tsUrlList[2]
    ensures Dispatch(p.tsUrlList) == [0, 0, 2]
    ensures var s := Store(Store(Store(Fresh(p), 0, d0), 0, d0), 2, d2);
            && s.finishNum == |s.tsUrlList|
            && DownloadFile(s).Failure?
  {
    var ds := Dispatch(p.tsUrlList);
    assert ds[1] == 0;
    assert ds == [0, 0, 2];
    var s := Store(Store(Store(Fresh(p), 0, d0), 0, d0), 2, d2);
    assert s.mediaFileList[1] == None;
  }

  /** With dispatch by position, a first run in which every segment succeeds
      once writes the segments' bytes in playlist order, duplicate URLs or
      not. */
  lemma DispatchByPositionCompletes(p: Parsed, conf: AesConf, cipher: Cipher, files: seq<Bytes>)
    requires ParserShaped(p) && |files| == |p.tsUrlList| > 0
    ensures Run(Fresh(p), conf, cipher, Successes(DispatchByPosition(|files|), files)).written
            == [Flatten(Plaintexts(files, conf, cipher))]
  {
    DispatchByPositionIsPermutation(|files|);
    FreshRunWritesConcatenation(p, conf, cipher, DispatchByPosition(|files|), files);
  }
}
