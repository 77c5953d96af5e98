/** When a partition has at most one writer, and the calls that give it two. */
module OneWriter {
  import opened Bytes
  import opened Foreign
  import opened Format
  import opened Recovery
  import opened Shelf
  import opened Log
  import Body
  import Dict
  import W = Writer

  /** No partition has two writers. */
  predicate Single(ws: set<Dir>) { forall d, e :: d in ws && e in ws && d.stream == e.stream ==> d == e }

  // --- One append ---

  /** A writer of the same stream in a later bucket. */
  predicate HasLater(ws: set<Dir>, d: Dir) { exists e :: e in ws && e.stream == d.stream && e.bucket > d.bucket }

  lemma {:induction false} ReadiedIsSingle(ws: set<Dir>, d: Dir)
    requires Single(ws)
    ensures Single(Readied(ws, d)) <==> !HasLater(ws, d)
  {
    if e :| e in ws && e.stream == d.stream && e.bucket > d.bucket {
      assert e in Readied(ws, d) && d in Readied(ws, d);
    }
  }

  /** An append, taken or refused, leaves one writer per partition exactly when the stream has no writer in a bucket later
      than the one the record's clamped time is in. */
  lemma {:induction false} AppendLeavesOne(lib: Library, k: Settings, s: State, g: Shelves, b: Book, raw: u64, now: u64,
      body: Body.Body)
    requires Lawful(lib) && Sound(lib, k, s, g, b) && Usable(s) && Single(s.active.Keys)
    requires (forall d: Dir :: |b.In(d)| + 1 < U64_END) && StreamOf(k, body).Some?
    ensures var next := Append(lib, k, s, raw, now, body).1;
      var d := Dir(BucketOf(k, Clamped(s.lastTs, StreamOf(k, body).value, raw)), StreamOf(k, body).value);
      next.Some? ==> (Single(next.value.active.Keys) <==> !HasLater(s.active.Keys, d))
  {
    hide Lawful, Sound, Usable, BucketOf, Clamped, StreamOf, Append, Single, HasLater, Readied;
    SoundIs(lib, k, s, g, b);
    var g' := AppendFiles(lib, k, s, g, b, raw, now, body);
    ReadiedIsSingle(s.active.Keys, Dir(BucketOf(k, Clamped(s.lastTs, StreamOf(k, body).value, raw)), StreamOf(k, body).value));
  }

  /** No reading of the clock can give the stream of writer `e` a second one exactly when `e` is not ahead of the stream's
      last record. */
  lemma {:induction false} SafeAtEveryReading(k: Settings, ws: set<Dir>, last: map<Stream, u64>, e: Dir)
    requires Single(ws) && e in ws
    ensures (forall raw: u64 :: Single(Readied(ws, Dir(BucketOf(k, Clamped(last, e.stream, raw)), e.stream))))
       <==> e.bucket <= BucketOf(k, Clamped(last, e.stream, 0))
  {
    hide BucketOf, Single, Readied;
    forall raw: u64
      ensures Single(Readied(ws, Dir(BucketOf(k, Clamped(last, e.stream, raw)), e.stream)))
         <==> e.bucket <= BucketOf(k, Clamped(last, e.stream, raw))
    {
      var d := Dir(BucketOf(k, Clamped(last, e.stream, raw)), e.stream);
      ReadiedIsSingle(ws, d);
      LaterIs(ws, d, e);
    }
    if e.bucket <= BucketOf(k, Clamped(last, e.stream, 0)) {
      forall raw: u64 ensures e.bucket <= BucketOf(k, Clamped(last, e.stream, raw)) {
        BucketsKeepOrder(k, Clamped(last, e.stream, 0), Clamped(last, e.stream, raw));
      }
    }
  }

  lemma LaterIs(ws: set<Dir>, d: Dir, e: Dir)
    requires Single(ws) && e in ws && e.stream == d.stream
    ensures HasLater(ws, d) <==> e.bucket > d.bucket
  {}

  // --- Runs ---

  /** Where the append at place `i` is directed. */
  function TargetAt(k: Settings, ops: seq<Op>, i: nat): Option<Dir> {
    if i < |ops| then Target(k, BookOf(k, ops[..i]).last, ops[i]) else None
  }

  /** The call at place `m` closes a writer in `d`: a seal, retention beyond its bucket, or an append of its stream in a
      later one. */
  predicate Closes(k: Settings, ops: seq<Op>, m: nat, d: Dir) {
    m < |ops| && match ops[m]
                 case AppendOp(_, _, _, _) =>
                   var t := TargetAt(k, ops, m);
                   t.Some? && t.value.stream == d.stream && d.bucket < t.value.bucket
                 case FlushOp => false
                 case SealOp => true
                 case RetainOp(ts) => d.bucket < BucketOf(k, ts)
  }

  /** The append at `i` was directed to `d`, and nothing before `n` has closed the writer since. */
  predicate LeftOpen(k: Settings, ops: seq<Op>, i: nat, n: nat, d: Dir) {
    i < n && TargetAt(k, ops, i) == Some(d) && forall m: nat | i < m < n :: !Closes(k, ops, m, d)
  }

  /** A directory has a writer exactly when some append was directed to it and nothing has closed that writer since. */
  lemma {:induction false} WritersAre(k: Settings, ops: seq<Op>, n: nat, d: Dir)
    requires n <= |ops|
    ensures d in Writers(k, ops[..n]) <==> exists i: nat :: LeftOpen(k, ops, i, n, d)
    decreases n
  {
    hide TargetAt, Closes;
    if n > 0 {
      WritersAre(k, ops, n - 1, d);
      StepSays(k, ops, n - 1, d);
      hide Writers;
      assert forall i: nat :: LeftOpen(k, ops, i, n, d) && i < n - 1 ==> LeftOpen(k, ops, i, n - 1, d) && !Closes(k, ops, n - 1, d);
      if TargetAt(k, ops, n - 1) == Some(d) {
        assert LeftOpen(k, ops, n - 1, n, d);
      } else if d in Writers(k, ops[..n]) {
        var i: nat :| LeftOpen(k, ops, i, n - 1, d);
        assert LeftOpen(k, ops, i, n, d);
      }
    }
  }

  lemma {:induction false} StepSays(k: Settings, ops: seq<Op>, n: nat, d: Dir)
    requires n < |ops|
    ensures d in Writers(k, ops[..n + 1])
       <==> (d in Writers(k, ops[..n]) && !Closes(k, ops, n, d)) || TargetAt(k, ops, n) == Some(d)
  {
    hide BucketOf, BookOf, Clamped, StreamOf;
    assert ops[..n + 1][..n] == ops[..n] && ops[..n + 1][n] == ops[n];
    assert Writers(k, ops[..n + 1]) == WritersStep(k, BookOf(k, ops[..n]), Writers(k, ops[..n]), ops[n]);
  }

  /** The append at `j` goes to an earlier bucket of its stream than the one at `i`, whose writer is still open. */
  predicate StepsBack(k: Settings, ops: seq<Op>, i: nat, j: nat) {
    var (later, earlier) := (TargetAt(k, ops, i), TargetAt(k, ops, j));
    && i < j && later.Some? && earlier.Some? && later.value.stream == earlier.value.stream
    && earlier.value.bucket < later.value.bucket && LeftOpen(k, ops, i, j, later.value)
  }

  lemma {:induction false} BackIsLater(k: Settings, ops: seq<Op>, n: nat)
    requires n < |ops| && TargetAt(k, ops, n).Some?
    ensures HasLater(Writers(k, ops[..n]), TargetAt(k, ops, n).value) <==> exists i: nat :: StepsBack(k, ops, i, n)
  {
    hide TargetAt, Closes, Writers;
    var d := TargetAt(k, ops, n).value;
    if e :| e in Writers(k, ops[..n]) && e.stream == d.stream && e.bucket > d.bucket {
      WritersAre(k, ops, n, e);
      var i: nat :| LeftOpen(k, ops, i, n, e);
      assert StepsBack(k, ops, i, n);
    }
    if i: nat :| StepsBack(k, ops, i, n) {
      WritersAre(k, ops, n, TargetAt(k, ops, i).value);
    }
  }

  lemma {:induction false} StepIsSingle(k: Settings, ops: seq<Op>, n: nat)
    requires n < |ops| && Single(Writers(k, ops[..n]))
    ensures Single(Writers(k, ops[..n + 1])) <==> forall i: nat :: !StepsBack(k, ops, i, n)
  {
    hide BucketOf, BookOf, StreamOf, Clamped, Readied, Single, HasLater, LeftOpen, Closes;
    assert ops[..n + 1][..n] == ops[..n] && ops[..n + 1][n] == ops[n];
    var (ws, ws') := (Writers(k, ops[..n]), Writers(k, ops[..n + 1]));
    assert ws' == WritersStep(k, BookOf(k, ops[..n]), ws, ops[n]);
    if TargetAt(k, ops, n).Some? {
      BackIsLater(k, ops, n);
      ReadiedIsSingle(ws, TargetAt(k, ops, n).value);
    } else {
      FewerAreSingle(ws, ws');
    }
  }

  lemma FewerAreSingle(ws: set<Dir>, ws': set<Dir>)
    requires Single(ws) && ws' <= ws
    ensures Single(ws')
  {}

  lemma {:induction false} SingleIff(k: Settings, ops: seq<Op>, n: nat)
    requires n <= |ops|
    ensures (forall m: nat | m <= n :: Single(Writers(k, ops[..m]))) <==> forall i: nat, j: nat | j < n :: !StepsBack(k, ops, i, j)
    decreases n
  {
    hide Writers, StepsBack, Single;
    if n == 0 {
      NoneIsSingle(k, ops);
    } else {
      SingleIff(k, ops, n - 1);
      if forall m: nat | m <= n - 1 :: Single(Writers(k, ops[..m])) {
        StepIsSingle(k, ops, n - 1);
      }
    }
  }

  lemma NoneIsSingle(k: Settings, ops: seq<Op>)
    ensures Single(Writers(k, ops[..0]))
  {}

  /** A partition has at most one writer in every state of a run if and only if no append of the run steps back: goes to an
      earlier bucket than an append before it whose writer is still open. */
  lemma {:induction false} OneWriterPerStream(lib: Library, k: Settings, ops: seq<Op>, states: seq<State>)
    requires Lawful(lib) && IsRun(lib, k, ops, states) && |ops| + 1 < U64_END
    ensures (forall n: nat | n < |states| :: Single(states[n].active.Keys)) <==> forall i: nat, j: nat | j < |ops| :: !StepsBack(k, ops, i, j)
  {
    hide IsRun, Writers, StepsBack, Single, Lawful, Sound, Usable, Reaches;
    RunLength(lib, k, ops, states);
    forall n: nat | n < |states| ensures states[n].active.Keys == Writers(k, ops[..n]) {
      var g := RunsKeepTheLog(lib, k, ops, states, n);
    }
    SingleIff(k, ops, |ops|);
    assert forall n: nat | n < |states| :: Single(states[n].active.Keys) <==> Single(Writers(k, ops[..n]));
  }

  lemma RunLength(lib: Library, k: Settings, ops: seq<Op>, states: seq<State>)
    requires IsRun(lib, k, ops, states)
    ensures |states| == |ops| + 1
  {
    hide Step, Usable;
  }

  // --- Only a refused record is stepped back from ---

  lemma {:induction false} ClocksMoveOn(k: Settings, ops: seq<Op>, a: nat, b: nat, stream: Stream)
    requires a <= b <= |ops|
    ensures var (x, y) := (BookOf(k, ops[..a]).last, BookOf(k, ops[..b]).last);
      stream in x ==> stream in y && x[stream] <= y[stream]
    decreases b - a
  {
    hide BucketOf, StreamOf, Cut;
    if a < b {
      ClocksMoveOn(k, ops, a, b - 1, stream);
      assert ops[..b][..b - 1] == ops[..b - 1] && ops[..b][b - 1] == ops[b - 1];
      if ops[b - 1].RetainOp? { CutKeepsClock(k, BookOf(k, ops[..b - 1]), ops[b - 1].ts); }
    }
  }

  lemma CutKeepsClock(k: Settings, b: Book, ts: u64)
    ensures Cut(k, b, ts).last == b.last
  {
    hide BucketOf;
  }

  /** Only a record refused for its size is stepped back from: the clock has not been told of it. */
  lemma {:induction false} StepsBackFromRefused(k: Settings, ops: seq<Op>, i: nat, j: nat)
    requires j < |ops| && StepsBack(k, ops, i, j)
    ensures ops[i].AppendOp? && StreamOf(k, ops[i].body).Some? && !ops[i].taken
  {
    hide BookOf, BucketOf, StreamOf, Closes, LeftOpen;
    var stream := TargetAt(k, ops, i).value.stream;
    var (x, y) := (BookOf(k, ops[..i]).last, BookOf(k, ops[..j]).last);
    var (t, u) := (Clamped(x, stream, ops[i].raw), Clamped(y, stream, ops[j].raw));
    if ops[i].taken {
      TakenTellsClock(k, ops, i);
      ClocksMoveOn(k, ops, i + 1, j, stream);
      BucketsKeepOrder(k, t, u);
    }
  }

  /** While every record is taken, a partition has at most one writer, whatever the clock does. */
  lemma {:induction false} OneWriterWhileTaken(lib: Library, k: Settings, ops: seq<Op>, states: seq<State>)
    requires Lawful(lib) && IsRun(lib, k, ops, states) && |ops| + 1 < U64_END
    requires forall i | 0 <= i < |ops| && ops[i].AppendOp? && StreamOf(k, ops[i].body).Some? :: ops[i].taken
    ensures forall n: nat | n < |states| :: Single(states[n].active.Keys)
  {
    hide IsRun, StepsBack, Single, Lawful;
    forall i: nat, j: nat | j < |ops| ensures !StepsBack(k, ops, i, j) {
      if StepsBack(k, ops, i, j) {
        StepsBackFromRefused(k, ops, i, j);
        BackIsAfter(k, ops, i, j);
      }
    }
    OneWriterPerStream(lib, k, ops, states);
  }

  lemma BackIsAfter(k: Settings, ops: seq<Op>, i: nat, j: nat)
    requires StepsBack(k, ops, i, j)
    ensures i < j
  {
    hide TargetAt, LeftOpen;
  }

  lemma {:induction false} TakenTellsClock(k: Settings, ops: seq<Op>, i: nat)
    requires i < |ops| && ops[i].AppendOp? && ops[i].taken && StreamOf(k, ops[i].body).Some?
    ensures var stream := StreamOf(k, ops[i].body).value;
      var last := BookOf(k, ops[..i + 1]).last;
      stream in last && last[stream] == Clamped(BookOf(k, ops[..i]).last, stream, ops[i].raw)
  {
    hide BucketOf, StreamOf, Clamped;
    assert ops[..i + 1][..i] == ops[..i] && ops[..i + 1][i] == ops[i];
  }

  // --- The run with two writers ---

  /** A body of one blob that no length field holds. */
  function Fat(): Body.Body { [(0, Body.Blob(seq(U32_END, _ => 0)))] }

  lemma {:induction false} FatIsRefused(lib: Library, c: Dict.Config, w: W.State, ts: u64)
    requires W.Usable(w) && w.dict == None && w.lastTs == None
    ensures var k := W.Config(1000, Raw, c);
      W.Refuses(lib, k, w, ts, Fat()) && W.Appended(lib, k, w, ts, Fat()).0 == Err(Overflow)
  {
    hide W.Usable, W.Opened;
    var (item, enc) := (Fat()[0], Body.Encode(lib, c, None, Fat()).0);
    assert Fat()[1..] == [];
    assert Body.EncodeItem(lib, c, None, item) == (Some(Body.Inline(item)), None);
    assert enc == Some(Body.Inline(item) + []);
  }

  /** A record too large for its length field, at clock 1, leaves a writer in bucket 1; the clock falls back to 0 and the
      next record gives the stream a second writer, in bucket 0. */
  lemma {:induction false} TwoWritersOneStream(lib: Library, c: Dict.Config)
    ensures var (k, first) := (OneSecondBuckets(c), Append(lib, OneSecondBuckets(c), NEW, 0, 0, []));
      && first.0.Ok?
      && var second := Append(lib, k, first.1.value, 1, 0, Fat());
         && second.0 == Err(Overflow) && second.1.Some?
         && var third := Append(lib, k, second.1.value, 0, 0, []);
            && third.0.Ok? && third.1.value.active.Keys == {Dir(0, None), Dir(1, None)}
  {
    hide Append, Fat, HasOnePart, Usable;
    FirstAppend(lib, c);
    var s := Append(lib, OneSecondBuckets(c), NEW, 0, 0, []).1.value;
    FatAppend(lib, c, s);
    BackAppend(lib, c, Append(lib, OneSecondBuckets(c), s, 1, 0, Fat()).1.value);
  }

  /** One writer, in bucket 1, of a stream whose clock stands at 0. */
  predicate IsAhead(s: State) { Usable(s) && s.active.Keys == {Dir(1, None)} && s.lastTs == map[None := 0] }

  lemma {:induction false} FatAppend(lib: Library, c: Dict.Config, s: State)
    requires HasOnePart(s)
    ensures Usable(s)
    ensures var (r, next) := Append(lib, OneSecondBuckets(c), s, 1, 0, Fat()); r == Err(Overflow) && next.Some? && IsAhead(next.value)
  {
    hide W.Appended, W.Refuses, SealParts, EnsurePart, W.Usable, Append, Fat, NextOffset;
    var (k, e) := (OneSecondBuckets(c), Dir(1, None));
    OpensNext(lib, c, s);
    var ready := OpenPart(lib, k, SealParts(lib, k, s, {Dir(0, None)}), e, 1, 0);
    FatIsRefused(lib, c, ready.active[e], 1);
    AppendIs(lib, k, s, 1, 0, Fat(), None, ready);
  }

  lemma {:induction false} BackAppend(lib: Library, c: Dict.Config, s: State)
    requires IsAhead(s)
    ensures var (r, next) := Append(lib, OneSecondBuckets(c), s, 0, 0, []);
      r.Ok? && next.value.active.Keys == {Dir(0, None), Dir(1, None)}
  {
    hide W.Appended, W.Refuses, EnsurePart, W.Usable, Append, NextOffset;
    var (k, d) := (OneSecondBuckets(c), Dir(0, None));
    OpensFresh(lib, k, s, d, 0, 0);
    var ready := OpenPart(lib, k, s, d, 0, 0);
    FirstRecord(lib, c, PartHeader(S, 0, 0, Low64(NextOffset(lib, SealedIn(s, d))), 0));
    AppendIs(lib, k, s, 0, 0, [], None, ready);
  }
}
