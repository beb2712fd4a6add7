/** The download state machine of fetcher.js, with the module-level
    variables `finishNum`, `mediaFileLength` and `mediaFileList` gathered in
    one immutable record. `downloadTsSeg` becomes `DownloadTsSeg`, one
    attempt at one segment given what the network returned, and
    `downloadFile` becomes `DownloadFile`, the `Buffer.concat` that builds the
    output. Attempts are taken one at a time: the pool of ten concurrent
    attempts and the 100 ms retry delay are not modelled. (Under real
    concurrency two attempts at the same index can both pass the `done`
    check before either sets it, since the check and the update are
    separated by an `await`; the sequential model has no such interleaving.) */
module Downloader {
  import opened Base
  import opened Playlist
  import opened SegmentCipher

  /** `mediaFileList`: a JavaScript array that may have holes (None). */
  type MediaArray = seq<Option<Bytes>>

  /** `a[i] = v`: assigning past the end leaves holes up to `i`. */
  function ArraySet(a: MediaArray, i: nat, v: Bytes): (r: MediaArray)
    ensures |r| == if i < |a| then |a| else i + 1
    ensures r[i] == Some(v)
    ensures forall j :: 0 <= j < |r| && j != i ==> r[j] == if j < |a| then a[j] else None
  {
    if i < |a| then a[i := Some(v)] else a + seq(i - |a|, _ => None) + [Some(v)]
  }

  /** The buffers of a hole-free array, or None if it has a hole. */
  function Unwrap(a: MediaArray): (r: Option<seq<Bytes>>)
    ensures r.Some? <==> forall i :: 0 <= i < |a| ==> a[i].Some?
    ensures r.Some? ==> |r.value| == |a| && forall i :: 0 <= i < |a| ==> a[i] == Some(r.value[i])
  {
    if |a| == 0 then Some([])
    else match (a[0], Unwrap(a[1..]))
      case (Some(b), Some(rest)) => Some([b] + rest)
      case _ => None
  }

  /** The buffers one after another. */
  function Flatten(list: seq<Bytes>): Bytes
  {
    if |list| == 0 then [] else list[0] + Flatten(list[1..])
  }

  /** The total length of the buffers present in the array. */
  function TotalLength(a: MediaArray): nat
  {
    if |a| == 0 then 0
    else (if a[0].Some? then |a[0].value| else 0) + TotalLength(a[1..])
  }

  /** `c` cut to `total` bytes, or zero-filled up to it. */
  function FitTo(c: Bytes, total: nat): (r: Bytes)
    ensures |r| == total
    ensures forall i :: 0 <= i < total ==> r[i] == if i < |c| then c[i] else 0
  {
    if total <= |c| then c[..total] else c + Zeros(total - |c|)
  }

  /** `Buffer.concat(list, totalLength)`: a hole is not a buffer and makes it
      throw; otherwise the concatenation is cut to `totalLength` bytes or
      zero-filled up to it. */
  function BufferConcat(a: MediaArray, total: nat): Result<Bytes, string>
  {
    match Unwrap(a)
    case None => Failure("list element is not a Buffer")
    case Some(list) => Success(FitTo(Flatten(list), total))
  }

  /** The downloader's state. `written` records each `<filename>.ts` that
      `downloadFile` writes, in order. */
  datatype State = State(
    tsUrlList: seq<string>,
    finishList: seq<Segment>,
    mediaFileList: MediaArray,
    finishNum: nat,
    mediaFileLength: nat,
    written: seq<Bytes>)

  /** The state `start` reaches on a first run: the parsed lists and the
      module variables at their initial values. */
  function Fresh(p: Parsed): State
  {
    State(p.tsUrlList, p.finishList, [], 0, 0, [])
  }

  /** `downloadFile`: the output bytes built from the stored payloads. */
  function DownloadFile(s: State): Result<Bytes, string>
  {
    BufferConcat(s.mediaFileList, s.mediaFileLength)
  }

  /** What the segment request returned. */
  datatype Fetch = Fetched(file: Bytes) | FetchFailed

  /** The next state, and the index `downloadTsSeg` schedules again after a
      caught error, if any. */
  datatype StepResult = StepResult(state: State, retry: Option<nat>)

  /** The four updates of a successful attempt: store the bytes at `index`,
      add their length, mark the record done, and count it. */
  function Store(s: State, index: nat, data: Bytes): State
    requires index < |s.finishList|
  {
    s.(mediaFileList := ArraySet(s.mediaFileList, index, data),
       mediaFileLength := s.mediaFileLength + |data|,
       finishList := s.finishList[index := s.finishList[index].(done := true)],
       finishNum := s.finishNum + 1)
  }

  /** `downloadTsSeg(index, ...)` for one attempt. An index past the end or
      already done is left alone. A failed request changes nothing and
      schedules the same index again. A successful one stores the segment's
      bytes at `index`, adds their length, marks the record done, counts it,
      and, when the count reaches the number of segments, writes the output.
      A throw from `Buffer.concat` is caught like a failed request; the
      retry then finds the segment done and does nothing. */
  function DownloadTsSeg(s: State, conf: AesConf, cipher: Cipher, index: nat, fetch: Fetch): (r: StepResult)
    ensures !(index < |s.finishList| && !s.finishList[index].done) ==> r == StepResult(s, None)
    ensures index < |s.finishList| && !s.finishList[index].done && fetch.FetchFailed? ==>
              r == StepResult(s, Some(index))
    ensures index < |s.finishList| && !s.finishList[index].done && fetch.Fetched? ==>
              var data := SegmentData(fetch.file, index, conf, cipher);
              && r.state.tsUrlList == s.tsUrlList
              && r.state.finishList == s.finishList[index := s.finishList[index].(done := true)]
              && r.state.mediaFileList == ArraySet(s.mediaFileList, index, data)
              && r.state.finishNum == s.finishNum + 1
              && r.state.mediaFileLength == s.mediaFileLength + |data|
              && (s.finishNum + 1 != |s.tsUrlList| ==> r.state.written == s.written && r.retry == None)
              && (s.finishNum + 1 == |s.tsUrlList| ==>
                    match DownloadFile(r.state.(written := s.written))
                    case Success(out) => r.state.written == s.written + [out] && r.retry == None
                    case Failure(_) => r.state.written == s.written && r.retry == Some(index))
  {
    if !(index < |s.finishList| && !s.finishList[index].done) then StepResult(s, None)
    else match fetch
      case FetchFailed => StepResult(s, Some(index))
      case Fetched(file) =>
        var s1 := Store(s, index, SegmentData(file, index, conf, cipher));
        if s1.finishNum == |s1.tsUrlList| then
          match DownloadFile(s1)
          case Success(out) => StepResult(s1.(written := s1.written + [out]), None)
          case Failure(_) => StepResult(s1, Some(index))
        else StepResult(s1, None)
  }

  /** One attempt at one segment, as the caller or a retry issues it. */
  datatype Attempt = Attempt(index: nat, fetch: Fetch)

  /** The state after a sequence of attempts, taken in order. */
  function Run(s: State, conf: AesConf, cipher: Cipher, attempts: seq<Attempt>): State
    decreases |attempts|
  {
    if |attempts| == 0 then s
    else Run(DownloadTsSeg(s, conf, cipher, attempts[0].index, attempts[0].fetch).state,
             conf, cipher, attempts[1..])
  }

  /** How many records are marked done. */
  function CountDone(list: seq<Segment>): (n: nat)
    ensures n <= |list|
  {
    if |list| == 0 then 0 else (if list[0].done then 1 else 0) + CountDone(list[1..])
  }

  /** Counting done records distributes over concatenation. */
  lemma {:induction false} CountDoneAppend(a: seq<Segment>, b: seq<Segment>)
    ensures CountDone(a + b) == CountDone(a) + CountDone(b)
    decreases |a|
  {
    if |a| > 0 {
      assert (a + b)[1..] == a[1..] + b;
      CountDoneAppend(a[1..], b);
    } else {
      assert a + b == b;
    }
  }

  predicate AllDone(list: seq<Segment>)
  {
    forall i :: 0 <= i < |list| ==> list[i].done
  }

  /** The count reaches the length exactly when every record is done. */
  lemma {:induction false} CountDoneFull(list: seq<Segment>)
    ensures CountDone(list) == |list| <==> AllDone(list)
  {
    if |list| > 0 {
      CountDoneFull(list[1..]);
      if AllDone(list) {
        assert AllDone(list[1..]) by {
          forall i | 0 <= i < |list| - 1 ensures list[1..][i].done { assert list[1..][i] == list[i + 1]; }
        }
      }
      if AllDone(list[1..]) && list[0].done {
        forall i | 0 <= i < |list| ensures list[i].done { if i > 0 { assert list[i] == list[1..][i - 1]; } }
      }
    }
  }

  /** Marking one pending record done adds exactly one to the count. */
  lemma {:induction false} CountDoneMark(list: seq<Segment>, i: nat)
    requires i < |list| && !list[i].done
    ensures CountDone(list[i := list[i].(done := true)]) == CountDone(list) + 1
  {
    var list' := list[i := list[i].(done := true)];
    if i > 0 {
      CountDoneMark(list[1..], i - 1);
      assert list'[1..] == list[1..][i - 1 := list[1..][i - 1].(done := true)];
    } else {
      assert list'[1..] == list[1..];
    }
  }

  lemma {:induction false} TotalLengthAppend(a: MediaArray, b: MediaArray)
    ensures TotalLength(a + b) == TotalLength(a) + TotalLength(b)
  {
    if |a| > 0 {
      TotalLengthAppend(a[1..], b);
      assert (a + b)[1..] == a[1..] + b;
    } else {
      assert a + b == b;
    }
  }

  lemma {:induction false} TotalLengthHoles(n: nat)
    ensures TotalLength(seq(n, _ => None)) == 0
  {
    if n > 0 {
      var h: MediaArray := seq(n, _ => None);
      TotalLengthHoles(n - 1);
      assert h[1..] == seq(n - 1, _ => None);
    }
  }

  lemma {:induction false} TotalLengthFill(a: MediaArray, i: nat, v: Bytes)
    requires i < |a| && a[i].None?
    ensures TotalLength(a[i := Some(v)]) == TotalLength(a) + |v|
  {
    if i > 0 {
      TotalLengthFill(a[1..], i - 1, v);
      assert a[i := Some(v)][1..] == a[1..][i - 1 := Some(v)];
    } else {
      assert a[i := Some(v)][1..] == a[1..];
    }
  }

  /** Storing a payload where there was none adds its length to the total. */
  lemma TotalLengthSet(a: MediaArray, i: nat, v: Bytes)
    requires i >= |a| || a[i].None?
    ensures TotalLength(ArraySet(a, i, v)) == TotalLength(a) + |v|
  {
    if i < |a| {
      TotalLengthFill(a, i, v);
    } else {
      var h: MediaArray := seq(i - |a|, _ => None);
      TotalLengthAppend(a + h, [Some(v)]);
      TotalLengthAppend(a, h);
      TotalLengthHoles(i - |a|);
      assert TotalLength([Some(v)]) == |v|;
    }
  }

  /** Without holes, the total is the length of the concatenation. */
  lemma {:induction false} TotalLengthFlatten(a: MediaArray)
    requires Unwrap(a).Some?
    ensures TotalLength(a) == |Flatten(Unwrap(a).value)|
  {
    if |a| > 0 {
      TotalLengthFlatten(a[1..]);
      assert Unwrap(a).value == [a[0].value] + Unwrap(a[1..]).value;
      assert Unwrap(a).value[1..] == Unwrap(a[1..]).value;
    }
  }

  /** The bookkeeping `downloadTsSeg` keeps, one index at a time: records are
      numbered by position and carry the URL at that position, a payload is stored exactly for the done records,
      `finishNum` counts the done records, `mediaFileLength` never exceeds the
      stored bytes, and the output is written at most once, and only when
      every record is done. */
  ghost predicate Consistent(s: State)
  {
    && |s.finishList| == |s.tsUrlList|
    && (forall i :: 0 <= i < |s.finishList| ==> s.finishList[i].index == i)
    && (forall i :: 0 <= i < |s.finishList| ==> s.finishList[i].url == s.tsUrlList[i])
    && |s.mediaFileList| <= |s.finishList|
    && (forall i :: 0 <= i < |s.finishList| ==>
          (s.finishList[i].done <==> i < |s.mediaFileList| && s.mediaFileList[i].Some?))
    && s.finishNum == CountDone(s.finishList)
    && s.mediaFileLength <= TotalLength(s.mediaFileList)
    && |s.written| <= 1
    && (|s.written| == 1 ==> AllDone(s.finishList))
  }

  /** Stored bytes that `mediaFileLength` does not account for. */
  function Deficit(s: State): int
  {
    TotalLength(s.mediaFileList) - s.mediaFileLength
  }

  /** With every record done, the stored payloads have no hole and number
      exactly one per segment. */
  lemma AllDoneNoHoles(s: State)
    requires Consistent(s) && AllDone(s.finishList)
    ensures |s.mediaFileList| == |s.finishList|
    ensures Unwrap(s.mediaFileList).Some?
  {
    if |s.finishList| > 0 {
      assert s.finishList[|s.finishList| - 1].done;
    }
  }

  /** Storing a pending segment keeps the bookkeeping consistent and the
      deficit unchanged. */
  lemma StoreConsistent(s: State, index: nat, data: Bytes)
    requires Consistent(s) && index < |s.finishList| && !s.finishList[index].done
    ensures Consistent(Store(s, index, data)) && Deficit(Store(s, index, data)) == Deficit(s)
  {
    var fl := s.finishList[index := s.finishList[index].(done := true)];
    var a := ArraySet(s.mediaFileList, index, data);
    CountDoneMark(s.finishList, index);
    TotalLengthSet(s.mediaFileList, index, data);
    assert !AllDone(s.finishList);
    forall i | 0 <= i < |fl| ensures (fl[i].done <==> i < |a| && a[i].Some?) {
      if i != index {
        assert fl[i] == s.finishList[i];
      }
    }
  }

  /** Storing the last pending segment completes every record. */
  lemma StoreCompletes(s: State, index: nat, data: Bytes)
    requires Consistent(s) && index < |s.finishList| && !s.finishList[index].done
    requires s.finishNum + 1 == |s.tsUrlList|
    ensures AllDone(Store(s, index, data).finishList)
  {
    var fl := Store(s, index, data).finishList;
    CountDoneMark(s.finishList, index);
    CountDoneFull(fl);
  }

  /** Once every record is done, `downloadFile` succeeds and builds the
      payloads in index order, cut short by the deficit. */
  lemma AllDoneOutput(s: State)
    requires Consistent(s) && AllDone(s.finishList)
    ensures Unwrap(s.mediaFileList).Some?
    ensures |Unwrap(s.mediaFileList).value| == |s.tsUrlList|
    ensures var out := Flatten(Unwrap(s.mediaFileList).value);
            && 0 <= Deficit(s) <= |out|
            && DownloadFile(s) == Success(out[..|out| - Deficit(s)])
  {
    AllDoneNoHoles(s);
    TotalLengthFlatten(s.mediaFileList);
    var out := Flatten(Unwrap(s.mediaFileList).value);
    assert DownloadFile(s) == Success(FitTo(out, s.mediaFileLength));
    assert FitTo(out, s.mediaFileLength) == out[..|out| - Deficit(s)];
  }

  /** One attempt keeps the bookkeeping consistent and the deficit unchanged;
      it writes the output exactly when it completes the last pending segment,
      and then the output is the payloads in index order, cut short by the
      deficit. */
  lemma StepSpec(s: State, conf: AesConf, cipher: Cipher, index: nat, fetch: Fetch)
    requires Consistent(s)
    ensures var r := DownloadTsSeg(s, conf, cipher, index, fetch).state;
            && Consistent(r)
            && Deficit(r) == Deficit(s)
            && (|r.written| > |s.written| <==>
                  index < |s.finishList| && !s.finishList[index].done && fetch.Fetched?
                  && s.finishNum + 1 == |s.tsUrlList|)
            && (|r.written| > |s.written| ==>
                  && AllDone(r.finishList)
                  && Unwrap(r.mediaFileList).Some?
                  && |Unwrap(r.mediaFileList).value| == |s.tsUrlList|
                  && var out := Flatten(Unwrap(r.mediaFileList).value);
                     && 0 <= Deficit(s) <= |out|
                     && r.written == [out[..|out| - Deficit(s)]])
  {
    if index < |s.finishList| && !s.finishList[index].done && fetch.Fetched? {
      var data := SegmentData(fetch.file, index, conf, cipher);
      StoreConsistent(s, index, data);
      var s1 := Store(s, index, data);
      CountDoneFull(s1.finishList);
      if s.finishNum + 1 == |s.tsUrlList| {
        StoreCompletes(s, index, data);
        AllDoneOutput(s1);
        var r := DownloadTsSeg(s, conf, cipher, index, fetch).state;
        assert r.(written := s.written) == s1;
        var out := Flatten(Unwrap(s1.mediaFileList).value);
        assert s.written == [] && Deficit(s1) == Deficit(s);
        assert r.written == [out[..|out| - Deficit(s)]];
      } else {
        assert DownloadTsSeg(s, conf, cipher, index, fetch).state == s1;
      }
    }
  }

  /** A run of attempts keeps the bookkeeping consistent and the deficit
      unchanged, and never writes the output twice. */
  lemma {:induction false} RunSpec(s: State, conf: AesConf, cipher: Cipher, attempts: seq<Attempt>)
    requires Consistent(s)
    ensures Consistent(Run(s, conf, cipher, attempts))
    ensures Deficit(Run(s, conf, cipher, attempts)) == Deficit(s)
    decreases |attempts|
  {
    if |attempts| > 0 {
      StepSpec(s, conf, cipher, attempts[0].index, attempts[0].fetch);
      RunSpec(DownloadTsSeg(s, conf, cipher, attempts[0].index, attempts[0].fetch).state,
              conf, cipher, attempts[1..]);
    }
  }

  /** Once every record is done, nothing moves: no attempt passes the `done`
      check, so the output is never written again, or, if it was never
      written, never written at all. */
  lemma {:induction false} RunAllDoneIsStuck(s: State, conf: AesConf, cipher: Cipher, attempts: seq<Attempt>)
    requires AllDone(s.finishList)
    ensures Run(s, conf, cipher, attempts) == s
    decreases |attempts|
  {
    if |attempts| > 0 {
      RunAllDoneIsStuck(s, conf, cipher, attempts[1..]);
    }
  }

  /** A record list none of whose entries is done counts zero. */
  lemma {:induction false} CountDoneNone(list: seq<Segment>)
    requires forall i :: 0 <= i < |list| ==> !list[i].done
    ensures CountDone(list) == 0
  {
    if |list| > 0 {
      CountDoneNone(list[1..]);
    }
  }

  /** An order in which the segments complete: each index below `n` once. */
  predicate IsPermutation(order: seq<nat>, n: nat)
  {
    && |order| == n
    && (forall k :: 0 <= k < n ==> order[k] < n)
    && (forall i :: 0 <= i < n ==> i in order)
    && (forall k, l :: 0 <= k < l < n ==> order[k] != order[l])
  }

  /** One successful attempt per segment, from position `k` of the given
      order on, where segment `i` fetches `files[i]`. */
  function SuccessesFrom(order: seq<nat>, files: seq<Bytes>, k: nat): (attempts: seq<Attempt>)
    requires forall l :: 0 <= l < |order| ==> order[l] < |files|
    requires k <= |order|
    ensures |attempts| == |order| - k
    ensures forall l :: k <= l < |order| ==> attempts[l - k] == Attempt(order[l], Fetched(files[order[l]]))
    decreases |order| - k
  {
    if k == |order| then [] else [Attempt(order[k], Fetched(files[order[k]]))] + SuccessesFrom(order, files, k + 1)
  }

  /** One successful attempt per segment, in the given order. */
  function Successes(order: seq<nat>, files: seq<Bytes>): seq<Attempt>
    requires forall l :: 0 <= l < |order| ==> order[l] < |files|
  {
    SuccessesFrom(order, files, 0)
  }

  /** The segment bytes the downloader keeps for each index. */
  function Plaintexts(files: seq<Bytes>, conf: AesConf, cipher: Cipher): (ps: seq<Bytes>)
    ensures |ps| == |files|
    ensures forall i :: 0 <= i < |files| ==> ps[i] == SegmentData(files[i], i, conf, cipher)
  {
    seq(|files|, i requires 0 <= i < |files| => SegmentData(files[i], i, conf, cipher))
  }

  /** After the first `k` successes of the completion order: exactly those
      segments are done, each holding its own bytes. */
  ghost predicate DoneUpTo(s: State, conf: AesConf, cipher: Cipher, order: seq<nat>, files: seq<Bytes>, k: nat)
    requires |files| <= |s.finishList| && k <= |order|
  {
    && (forall i :: 0 <= i < |files| ==> (s.finishList[i].done <==> i in order[..k]))
    && (forall i :: 0 <= i < |files| && s.finishList[i].done ==>
          i < |s.mediaFileList| && s.mediaFileList[i] == Some(SegmentData(files[i], i, conf, cipher)))
  }

  /** The bookkeeping half of `StepSpec`. */
  lemma StepConsistent(s: State, conf: AesConf, cipher: Cipher, index: nat, fetch: Fetch)
    requires Consistent(s)
    ensures Consistent(DownloadTsSeg(s, conf, cipher, index, fetch).state)
    ensures Deficit(DownloadTsSeg(s, conf, cipher, index, fetch).state) == Deficit(s)
  {
    StepSpec(s, conf, cipher, index, fetch);
  }

  /** The success at position `k` of the completion order extends the done
      prefix by one. */
  lemma AdvanceOrder(s: State, conf: AesConf, cipher: Cipher, order: seq<nat>, files: seq<Bytes>, k: nat)
    requires Consistent(s)
    requires |files| == |s.tsUrlList| && IsPermutation(order, |files|) && k < |files|
    requires DoneUpTo(s, conf, cipher, order, files, k)
    ensures var s1 := DownloadTsSeg(s, conf, cipher, order[k], Fetched(files[order[k]])).state;
            && s1.tsUrlList == s.tsUrlList
            && Consistent(s1)
            && Deficit(s1) == Deficit(s)
            && DoneUpTo(s1, conf, cipher, order, files, k + 1)
  {
    var n := |files|;
    var i0 := order[k];
    assert i0 !in order[..k] by {
      forall l | 0 <= l < k ensures order[..k][l] != i0 { assert order[..k][l] == order[l]; }
    }
    StepConsistent(s, conf, cipher, i0, Fetched(files[i0]));
    var s1 := DownloadTsSeg(s, conf, cipher, i0, Fetched(files[i0])).state;
    assert order[..k + 1] == order[..k] + [i0];
    forall i | 0 <= i < n && s1.finishList[i].done
      ensures i < |s1.mediaFileList| && s1.mediaFileList[i] == Some(SegmentData(files[i], i, conf, cipher))
    {
      if i != i0 {
        assert s.finishList[i].done;
      }
    }
  }

  /** The last success of the completion order writes the output: every
      segment's bytes in index order, cut short by the deficit. */
  lemma LastInOrderWrites(s: State, conf: AesConf, cipher: Cipher, order: seq<nat>, files: seq<Bytes>)
    requires Consistent(s)
    requires |files| == |s.tsUrlList| > 0 && IsPermutation(order, |files|)
    requires DoneUpTo(s, conf, cipher, order, files, |files| - 1)
    ensures var s1 := DownloadTsSeg(s, conf, cipher, order[|files| - 1], Fetched(files[order[|files| - 1]])).state;
            var out := Flatten(Plaintexts(files, conf, cipher));
            && 0 <= Deficit(s) <= |out|
            && s1.written == [out[..|out| - Deficit(s)]]
  {
    var n := |files|;
    var i0 := order[n - 1];
    AdvanceOrder(s, conf, cipher, order, files, n - 1);
    StepSpec(s, conf, cipher, i0, Fetched(files[i0]));
    var s1 := DownloadTsSeg(s, conf, cipher, i0, Fetched(files[i0])).state;
    assert order[..n] == order;
    assert AllDone(s1.finishList) by {
      forall i | 0 <= i < n ensures s1.finishList[i].done {
        assert i in order;
      }
    }
    assert !s.finishList[i0].done by {
      var before := order[..n - 1];
      forall l | 0 <= l < |before| ensures before[l] != i0 { assert before[l] == order[l]; }
    }
    CountDoneFull(s1.finishList);
    var ps := Unwrap(s1.mediaFileList).value;
    assert ps == Plaintexts(files, conf, cipher);
  }

  /** Running the successes from position `k` on takes the one at `k`
      first; after the last one nothing remains. */
  lemma RunSuccessesStep(s: State, conf: AesConf, cipher: Cipher, order: seq<nat>, files: seq<Bytes>, k: nat)
    requires forall l :: 0 <= l < |order| ==> order[l] < |files|
    requires k < |order|
    ensures Run(s, conf, cipher, SuccessesFrom(order, files, k))
            == Run(DownloadTsSeg(s, conf, cipher, order[k], Fetched(files[order[k]])).state,
                   conf, cipher, SuccessesFrom(order, files, k + 1))
    ensures k + 1 == |order| ==> SuccessesFrom(order, files, k + 1) == []
  {
    var attempts := SuccessesFrom(order, files, k);
    assert attempts[1..] == SuccessesFrom(order, files, k + 1);
  }

  /** From position `k` of the completion order on, the remaining successes
      write one output: the payloads in index order, cut short by the deficit
      of `s`. */
  ghost predicate WritesFrom(s: State, conf: AesConf, cipher: Cipher, order: seq<nat>, files: seq<Bytes>, k: nat)
    requires forall l :: 0 <= l < |order| ==> order[l] < |files|
    requires k <= |order|
  {
    var out := Flatten(Plaintexts(files, conf, cipher));
    && 0 <= Deficit(s) <= |out|
    && Run(s, conf, cipher, SuccessesFrom(order, files, k)).written == [out[..|out| - Deficit(s)]]
  }

  /** The remaining successes, from position `k` of the completion order on,
      end with exactly one output: the payloads in index order, cut short by
      the deficit. */
  lemma {:induction false} RunInAnyOrder(s: State, conf: AesConf, cipher: Cipher,
                                         order: seq<nat>, files: seq<Bytes>, k: nat)
    requires Consistent(s)
    requires |files| == |s.tsUrlList| && IsPermutation(order, |files|) && k < |files|
    requires DoneUpTo(s, conf, cipher, order, files, k)
    ensures WritesFrom(s, conf, cipher, order, files, k)
    decreases |files| - k, 1
  {
    if k + 1 < |files| {
      RunInAnyOrderStep(s, conf, cipher, order, files, k);
    } else {
      LastInOrderWrites(s, conf, cipher, order, files);
      RunSuccessesStep(s, conf, cipher, order, files, k);
    }
  }

  /** The success at position `k`, followed by the rest. */
  lemma {:induction false} RunInAnyOrderStep(s: State, conf: AesConf, cipher: Cipher,
                                             order: seq<nat>, files: seq<Bytes>, k: nat)
    requires Consistent(s)
    requires |files| == |s.tsUrlList| && IsPermutation(order, |files|) && k + 1 < |files|
    requires DoneUpTo(s, conf, cipher, order, files, k)
    ensures WritesFrom(s, conf, cipher, order, files, k)
    decreases |files| - k, 0
  {
    AdvanceOrder(s, conf, cipher, order, files, k);
    var s1 := DownloadTsSeg(s, conf, cipher, order[k], Fetched(files[order[k]])).state;
    RunSuccessesStep(s, conf, cipher, order, files, k);
    RunInAnyOrder(s1, conf, cipher, order, files, k + 1);
  }

  /** A first run starts consistent, with no deficit and nothing done. */
  lemma FreshReady(p: Parsed, conf: AesConf, cipher: Cipher, order: seq<nat>, files: seq<Bytes>)
    requires |p.finishList| == |p.tsUrlList| == |files|
    requires forall k :: 0 <= k < |p.finishList| ==> p.finishList[k] == Segment(p.tsUrlList[k], false, k)
    requires |order| == |files|
    ensures Consistent(Fresh(p)) && Deficit(Fresh(p)) == 0
    ensures DoneUpTo(Fresh(p), conf, cipher, order, files, 0)
  {
    CountDoneNone(p.finishList);
    assert order[..0] == [];
  }

  /** A first run in which every segment succeeds once, in any order, writes
      one output: the segments' bytes concatenated in playlist order. */
  lemma FreshRunWritesConcatenation(p: Parsed, conf: AesConf, cipher: Cipher, order: seq<nat>, files: seq<Bytes>)
    requires |p.finishList| == |p.tsUrlList| == |files| > 0
    requires forall k :: 0 <= k < |p.finishList| ==> p.finishList[k] == Segment(p.tsUrlList[k], false, k)
    requires IsPermutation(order, |files|)
    ensures Run(Fresh(p), conf, cipher, Successes(order, files)).written == [Flatten(Plaintexts(files, conf, cipher))]
  {
    var s := Fresh(p);
    FreshReady(p, conf, cipher, order, files);
    RunInAnyOrder(s, conf, cipher, order, files, 0);
    var out := Flatten(Plaintexts(files, conf, cipher));
    assert out[..|out| - 0] == out;
  }

  /** An empty playlist leaves nothing to attempt: no output is ever written. */
  lemma {:induction false} EmptyPlaylistWritesNothing(p: Parsed, conf: AesConf, cipher: Cipher, attempts: seq<Attempt>)
    requires |p.finishList| == 0
    ensures Run(Fresh(p), conf, cipher, attempts).written == []
  {
    RunAllDoneIsStuck(Fresh(p), conf, cipher, attempts);
  }

  /** Whatever the attempts (successes, failures and retries in any order),
      the output is written at most once, and when it is, it is the payloads
      in index order, cut short by the deficit of the starting state. */
  lemma {:induction false} RunOutput(s: State, conf: AesConf, cipher: Cipher, attempts: seq<Attempt>)
    requires Consistent(s) && s.written == []
    ensures var f := Run(s, conf, cipher, attempts);
            || f.written == []
            || (&& AllDone(f.finishList)
                && Unwrap(f.mediaFileList).Some?
                && var out := Flatten(Unwrap(f.mediaFileList).value);
                   && 0 <= Deficit(s) <= |out|
                   && f.written == [out[..|out| - Deficit(s)]])
    decreases |attempts|
  {
    if |attempts| > 0 {
      var a := attempts[0];
      StepSpec(s, conf, cipher, a.index, a.fetch);
      var s1 := DownloadTsSeg(s, conf, cipher, a.index, a.fetch).state;
      if s1.written == [] {
        RunOutput(s1, conf, cipher, attempts[1..]);
      } else {
        RunAllDoneIsStuck(s1, conf, cipher, attempts[1..]);
      }
    }
  }
}
