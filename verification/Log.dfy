/** The log: one clock, a directory of parts per bucket and partition, at most one writer per partition. */
module Log {
  import opened Bytes
  import opened Foreign
  import opened Format
  import opened Part
  import opened Recovery
  import opened Shelf
  import Body
  import Dict
  import DictRoom
  import H = History
  import Varint
  import W = Writer

  type positive = n: nat | n >= 1 witness 1

  /** A partition's value, or none for the one stream of an unpartitioned log. */
  type Stream = Option<string>

  /** `partition` renders the declared field of a body; a log without one has a single stream. */
  datatype Settings = Settings(
    precision: Precision, bucketSeconds: positive, partBytes: nat, writer: W.Config, withDict: bool,
    partition: Option<Body.Body -> Option<string>>)

  datatype Dir = Dir(bucket: u64, stream: Stream)

  datatype State = State(sealed: map<Dir, seq<Files>>, active: map<Dir, W.State>, lastTs: map<Stream, u64>)

  const NEW: State := State(map[], map[], map[])

  // --- Buckets and the clock ---

  lemma {:induction false} TimesKeepsOrder(x: nat, y: nat, d: nat)
    requires x <= y
    ensures x * d <= y * d
    decreases y - x
  {
    if x < y { TimesKeepsOrder(x + 1, y, d); }
  }

  lemma {:induction false} DivideKeepsOrder(a: nat, b: nat, d: nat)
    requires a <= b && d >= 1
    ensures a / d <= b / d && a / d <= a
  {
    var (p, q) := (a / d, b / d);
    assert p * d <= a && b < (q + 1) * d;
    TimesKeepsOrder(1, d, p);
    assert p * d == d * p;
  }

  function BucketOf(k: Settings, ts: u64): (b: u64)
    ensures b <= ts
  {
    DivideKeepsOrder(ts, ts, k.precision.PerSecond());
    DivideKeepsOrder(ts / k.precision.PerSecond(), ts / k.precision.PerSecond(), k.bucketSeconds);
    ts / k.precision.PerSecond() / k.bucketSeconds
  }

  lemma BucketsKeepOrder(k: Settings, a: u64, b: u64)
    requires a <= b
    ensures BucketOf(k, a) <= BucketOf(k, b)
  {
    DivideKeepsOrder(a, b, k.precision.PerSecond());
    DivideKeepsOrder(a / k.precision.PerSecond(), b / k.precision.PerSecond(), k.bucketSeconds);
  }

  /** How many ticks of the clock a bucket lasts. */
  function Length(k: Settings): nat {
    k.bucketSeconds * match k.precision case S => 1 case Ms => 1000 case Us => 1_000_000 case Ns => 1_000_000_000
  }

  lemma Between(n: nat, d: nat)
    requires d >= 1
    ensures n / d * d <= n < n / d * d + d
  {}

  lemma Regroup(b: nat, q: nat, p: nat)
    ensures b * q * p == b * (q * p) && (b * q + q) * p == (b + 1) * (q * p)
  {
    assert (b * q + q) * p == b * q * p + q * p;
    assert (b + 1) * (q * p) == b * (q * p) + q * p;
  }

  lemma {:induction false} DivideTwice(ts: nat, p: nat, q: nat)
    requires p >= 1 && q >= 1
    ensures ts / p / q * (q * p) <= ts < (ts / p / q + 1) * (q * p)
  {
    var (x, b) := (ts / p, ts / p / q);
    Between(ts, p);
    Between(x, q);
    TimesKeepsOrder(b * q, x, p);
    TimesKeepsOrder(x + 1, b * q + q, p);
    Regroup(b, q, p);
    Next(x, p);
  }

  lemma Next(x: nat, p: nat)
    ensures (x + 1) * p == x * p + p
  {}

  /** Bucket `b` holds the times from `b` bucket lengths on, up to the next bucket. */
  lemma {:induction false} BucketSpan(k: Settings, ts: u64)
    ensures BucketOf(k, ts) * Length(k) <= ts < (BucketOf(k, ts) + 1) * Length(k)
  {
    DivideTwice(ts, k.precision.PerSecond(), k.bucketSeconds);
  }

  /** The last multiple of `len` up to `ts`. */
  function Down(ts: nat, len: nat): nat
    requires len >= 1
  {
    ts - ts % len
  }

  /** The start of the interval that holds `ts`. */
  function StartOf(k: Settings, ts: u64): nat {
    LengthIsSome(k);
    Down(ts, Length(k))
  }

  /** Where the interval of a bucket ends. */
  function EndOf(k: Settings, bucket: u64): nat { (bucket + 1) * Length(k) }

  lemma LengthIsSome(k: Settings)
    ensures Length(k) >= 1
  {}

  lemma {:induction false} Multiples(a: nat, b: nat, d: nat)
    ensures a < b ==> (a + 1) * d <= b * d
    ensures a <= b ==> a * d <= b * d
  {
    if a < b { TimesKeepsOrder(a + 1, b, d); }
    if a <= b { TimesKeepsOrder(a, b, d); }
  }

  lemma {:induction false} SameQuotient(ts: nat, b: nat, len: nat)
    requires len >= 1 && b * len <= ts < (b + 1) * len
    ensures Down(ts, len) == b * len
  {
    var q := ts / len;
    assert ts == q * len + ts % len;
    Multiples(q, b, len);
    Multiples(b, q, len);
  }

  /** A time is in the bucket of `ts` or a later one exactly when it is not before the start of the interval of `ts`. */
  lemma {:induction false} LaterBucket(k: Settings, t: u64, ts: u64)
    ensures StartOf(k, ts) == BucketOf(k, ts) * Length(k)
    ensures BucketOf(k, t) >= BucketOf(k, ts) <==> t >= StartOf(k, ts)
  {
    hide BucketOf;
    LengthIsSome(k);
    BucketSpan(k, t);
    BucketSpan(k, ts);
    hide Length;
    SameQuotient(ts, BucketOf(k, ts), Length(k));
    Multiples(BucketOf(k, t), BucketOf(k, ts), Length(k));
    Multiples(BucketOf(k, ts), BucketOf(k, t), Length(k));
  }

  /** The clock's reading, never before the stream's last timestamp. */
  function Clamped(lastTs: map<Stream, u64>, stream: Stream, raw: u64): u64 {
    if stream in lastTs && raw < lastTs[stream] then lastTs[stream] else raw
  }

  function StreamOf(k: Settings, body: Body.Body): Option<Stream> {
    if k.partition.None? then Some(None)
    else
      match k.partition.value(body)
      case None => None
      case Some(value) => Some(Some(value))
  }

  // --- The steps ---

  predicate Usable(s: State) { forall d :: d in s.active ==> W.Usable(s.active[d]) }

  function SealedIn(s: State, d: Dir): seq<Files> { if d in s.sealed then s.sealed[d] else [] }

  function OpenIn(s: State, d: Dir): Option<W.State> { if d in s.active then Some(s.active[d]) else None }

  predicate SealFits(lib: Library, k: Settings, s: State, stale: set<Dir>)
    requires Usable(s)
  {
    forall d :: d in stale && d in s.active ==> W.Sealed(lib, k.writer, s.active[d]).0.Ok?
  }

  /** Seal the writers of `stale`: their parts join the sealed ones of their directories. */
  function SealParts(lib: Library, k: Settings, s: State, stale: set<Dir>): State
    requires Usable(s)
  {
    s.(sealed := map d | d in s.sealed.Keys + (stale * s.active.Keys) ::
                   if d in stale && d in s.active then SealedIn(s, d) + [FilesOf(W.Sealed(lib, k.writer, s.active[d]).1)] else SealedIn(s, d),
       active := s.active - stale)
  }

  /** Active writers of buckets before `cutoff`, of one stream or of all. */
  function Stale(s: State, cutoff: u64, only: Option<Stream>): set<Dir> {
    set d | d in s.active && d.bucket < cutoff && (only.None? || only.value == d.stream)
  }

  function OpenPart(lib: Library, k: Settings, s: State, d: Dir, ts: u64, now: u64): State {
    var header := PartHeader(k.precision, d.bucket, ts, Low64(NextOffset(lib, SealedIn(s, d))), now);
    s.(active := s.active[d := W.Created(header, k.withDict)])
  }

  predicate Full(k: Settings, s: State, d: Dir) {
    d in s.active ==> s.active[d].fileOff + |s.active[d].block| >= k.partBytes
  }

  /** A part to append to: the stream's writers in earlier buckets are sealed, and so is a full one. */
  function EnsurePart(lib: Library, k: Settings, s: State, d: Dir, ts: u64, now: u64): (r: Option<State>)
    requires Usable(s)
    ensures r.Some? ==> Usable(r.value) && d in r.value.active
  {
    var stale := Stale(s, d.bucket, Some(d.stream));
    if !SealFits(lib, k, s, stale) then None
    else
      var s1 := SealParts(lib, k, s, stale);
      if !Full(k, s1, d) then Some(s1)
      else if !SealFits(lib, k, s1, {d}) then None
      else Some(OpenPart(lib, k, SealParts(lib, k, s1, {d}), d, ts, now))
  }

  /** Append one body when the clock reads `raw`: its offset, or why it was refused, and the log it leaves. A refused
      record leaves the part that was made ready for it. A log that cannot seal a part or flush a block is not followed
      further. */
  function Append(lib: Library, k: Settings, s: State, raw: u64, now: u64, body: Body.Body): (r: (Result<nat, Error>,
      Option<State>))
    requires Usable(s)
    ensures r.0.Ok? ==> r.1.Some?
    ensures r.1.Some? ==> Usable(r.1.value)
  {
    match StreamOf(k, body)
    case None => (Err(MissingPartition), Some(s))
    case Some(stream) =>
      var ts := Clamped(s.lastTs, stream, raw);
      var d := Dir(BucketOf(k, ts), stream);
      match EnsurePart(lib, k, s, d, ts, now)
      case None => (Err(Overflow), None)
      case Some(s1) =>
        var (r, w) := W.Appended(lib, k.writer, s1.active[d], ts, body);
        var s2 := s1.(active := s1.active[d := w]);
        if r.Ok? then (r, Some(s2.(lastTs := s2.lastTs[stream := ts])))
        else (r, if W.Refuses(lib, k.writer, s1.active[d], ts, body) then Some(s2) else None)
  }

  predicate FlushFits(lib: Library, k: Settings, s: State)
    requires Usable(s)
  {
    forall d :: d in s.active ==> W.Flushed(lib, k.writer, s.active[d]).0.Ok?
  }

  function Flush(lib: Library, k: Settings, s: State): (s': State)
    requires Usable(s) && FlushFits(lib, k, s)
    ensures Usable(s')
  {
    s.(active := map d | d in s.active :: W.Flushed(lib, k.writer, s.active[d]).1)
  }

  /** Buckets before `cutoff` with a directory and without a writer. */
  function Idle(s: State, cutoff: u64): set<u64> {
    set d | d in s.sealed.Keys + s.active.Keys && d.bucket < cutoff && (forall a :: a in s.active ==> a.bucket != d.bucket) :: d.bucket
  }

  /** Drop every bucket before the one `ts` falls in, after sealing what is still open there. A bucket with a writer
      stays. */
  function Retain(lib: Library, k: Settings, s: State, ts: u64): (set<u64>, State)
    requires Usable(s)
  {
    var cutoff := BucketOf(k, ts);
    var s1 := SealParts(lib, k, s, Stale(s, cutoff, None));
    var dropped := Idle(s1, cutoff);
    (dropped, s1.(sealed := map d | d in s1.sealed && d.bucket !in dropped :: s1.sealed[d]))
  }

  // --- What the log should hold ---

  type Entry = (u64, Body.Body)

  /** The log as a list of entries per directory and a clock per stream. */
  datatype Book = Book(entries: map<Dir, seq<Entry>>, last: map<Stream, u64>) {
    function In(d: Dir): seq<Entry> { if d in entries then entries[d] else [] }
  }

  const BLANK: Book := Book(map[], map[])

  function Write(k: Settings, b: Book, raw: u64, stream: Stream, body: Body.Body): Book {
    var ts := Clamped(b.last, stream, raw);
    var d := Dir(BucketOf(k, ts), stream);
    Book(b.entries[d := b.In(d) + [(ts, body)]], b.last[stream := ts])
  }

  function Cut(k: Settings, b: Book, ts: u64): Book {
    b.(entries := map d | d in b.entries && d.bucket >= BucketOf(k, ts) :: b.entries[d])
  }

  /** Entries lie in the bucket of their timestamp, in time order, and none is after its stream's last. */
  predicate Dated(k: Settings, d: Dir, es: seq<Entry>, last: map<Stream, u64>) {
    && (forall i :: 0 <= i < |es| ==> BucketOf(k, es[i].0) == d.bucket)
    && (forall i, j :: 0 <= i <= j < |es| ==> es[i].0 <= es[j].0)
    && (es != [] ==> d.stream in last && es[|es| - 1].0 <= last[d.stream])
  }

  ghost predicate Orderly(k: Settings, b: Book) { forall d: Dir :: Dated(k, d, b.In(d), b.last) }

  lemma {:induction false} WriteIsOrderly(k: Settings, b: Book, raw: u64, stream: Stream, body: Body.Body)
    requires Orderly(k, b)
    ensures Orderly(k, Write(k, b, raw, stream, body))
  {
    hide BucketOf, Dated, Clamped;
    var (b', ts) := (Write(k, b, raw, stream, body), Clamped(b.last, stream, raw));
    ClampedIs(b.last, stream, raw);
    forall d: Dir ensures Dated(k, d, b'.In(d), b'.last) {
      assert Dated(k, d, b.In(d), b.last);
      if d == Dir(BucketOf(k, ts), stream) { DatedSnoc(k, d, b.In(d), b.last, ts, body); } else { DatedStays(k, d, b.In(d), b.last, stream, ts); }
    }
  }

  lemma {:induction false} DatedSnoc(k: Settings, d: Dir, es: seq<Entry>, last: map<Stream, u64>, ts: u64,
      body: Body.Body)
    requires Dated(k, d, es, last) && BucketOf(k, ts) == d.bucket && (d.stream in last ==> last[d.stream] <= ts)
    ensures Dated(k, d, es + [(ts, body)], last[d.stream := ts])
  {
    hide BucketOf;
    assert forall i :: 0 <= i < |es| ==> es[i].0 <= es[|es| - 1].0;
  }

  lemma DatedStays(k: Settings, d: Dir, es: seq<Entry>, last: map<Stream, u64>, stream: Stream, ts: u64)
    requires Dated(k, d, es, last) && (stream in last ==> last[stream] <= ts)
    ensures Dated(k, d, es, last[stream := ts])
  {
    hide BucketOf;
  }

  lemma ClampedIs(lastTs: map<Stream, u64>, stream: Stream, raw: u64)
    ensures Clamped(lastTs, stream, raw) == raw || (stream in lastTs && Clamped(lastTs, stream, raw) == lastTs[stream])
    ensures stream in lastTs ==> lastTs[stream] <= Clamped(lastTs, stream, raw)
    ensures raw <= Clamped(lastTs, stream, raw)
  {}

  /** The entries from a time on. */
  function Since(es: seq<Entry>, from: nat): seq<Entry> {
    if es == [] then [] else (if es[0].0 >= from then [es[0]] else []) + Since(es[1..], from)
  }

  lemma {:induction false} SinceAll(es: seq<Entry>, from: nat, keep: bool)
    requires forall i :: 0 <= i < |es| ==> (es[i].0 >= from <==> keep)
    ensures Since(es, from) == if keep then es else []
    decreases |es|
  {
    if es != [] {
      assert forall i :: 0 <= i < |es| - 1 ==> es[1..][i] == es[i + 1];
      SinceAll(es[1..], from, keep);
      assert es == [es[0]] + es[1..];
    }
  }

  /** Cutting keeps exactly the entries that are not before the start of the interval of `ts`. */
  lemma {:induction false} CutIsSince(k: Settings, b: Book, ts: u64, d: Dir)
    requires Orderly(k, b)
    ensures Cut(k, b, ts).In(d) == Since(b.In(d), StartOf(k, ts)) && Cut(k, b, ts).last == b.last
  {
    hide BucketOf, Length, StartOf;
    LengthIsSome(k);
    assert Dated(k, d, b.In(d), b.last);
    var es := b.In(d);
    forall i | 0 <= i < |es| ensures es[i].0 >= StartOf(k, ts) <==> d.bucket >= BucketOf(k, ts) { LaterBucket(k, es[i].0, ts); }
    SinceAll(es, StartOf(k, ts), d.bucket >= BucketOf(k, ts));
  }

  /** Every entry lies in a directory whose bucket's interval holds its time. */
  lemma {:induction false} FiledByTime(k: Settings, b: Book, d: Dir, i: nat)
    requires Orderly(k, b) && i < |b.In(d)|
    ensures d.bucket * Length(k) <= b.In(d)[i].0 < (d.bucket + 1) * Length(k)
  {
    hide BucketOf, Length;
    assert Dated(k, d, b.In(d), b.last);
    BucketSpan(k, b.In(d)[i].0);
  }

  lemma CutIsOrderly(k: Settings, b: Book, ts: u64)
    requires Orderly(k, b)
    ensures Orderly(k, Cut(k, b, ts))
  {
    hide BucketOf;
    forall d: Dir ensures Dated(k, d, Cut(k, b, ts).In(d), b.last) { assert Dated(k, d, b.In(d), b.last); }
  }

  /** Time moves with the bucket: of two entries of a stream, the one in the earlier bucket is older. */
  lemma {:induction false} BucketsFollowTime(k: Settings, b: Book, d: Dir, e: Dir, i: nat, j: nat)
    requires Orderly(k, b) && i < |b.In(d)| && j < |b.In(e)| && d.bucket < e.bucket
    ensures b.In(d)[i].0 < b.In(e)[j].0
  {
    hide BucketOf;
    assert Dated(k, d, b.In(d), b.last) && Dated(k, e, b.In(e), b.last);
    if b.In(e)[j].0 <= b.In(d)[i].0 { BucketsKeepOrder(k, b.In(e)[j].0, b.In(d)[i].0); }
  }

  // --- The log holds what it should ---

  type Shelves = map<Dir, Shelf>

  function ShelfAt(g: Shelves, d: Dir): Shelf { if d in g then g[d] else EMPTY }

  function Plain(recs: seq<Rec>): seq<Entry> { seq(|recs|, i requires 0 <= i < |recs| => (recs[i].ts, recs[i].body)) }

  ghost predicate ShelvesTell(lib: Library, s: State, g: Shelves) {
    forall d: Dir :: Tells(lib, SealedIn(s, d), OpenIn(s, d), ShelfAt(g, d))
  }

  /** Every open dictionary is within its limits. */
  predicate Roomy(s: State) { forall d :: d in s.active ==> DictRoom.Fits(s.active[d].dict) }

  /** Every sealed dictionary is. */
  ghost predicate ViewsFit(g: Shelves) { forall d: Dir :: ShelfFits(ShelfAt(g, d)) }

  ghost predicate AllContinue(g: Shelves, g': Shelves) {
    forall d: Dir :: Continues(ShelfAt(g, d), ShelfAt(g', d))
  }

  lemma AllContinueOn(g: Shelves, g1: Shelves, g2: Shelves)
    requires AllContinue(g, g1) && AllContinue(g1, g2)
    ensures AllContinue(g, g2)
  {
    hide Continues;
    forall d: Dir ensures Continues(ShelfAt(g, d), ShelfAt(g2, d)) {
      ContinuesIsTransitive(ShelfAt(g, d), ShelfAt(g1, d), ShelfAt(g2, d));
    }
  }

  lemma ItselfContinues(g: Shelves)
    ensures AllContinue(g, g)
  {}

  ghost predicate Agrees(s: State, g: Shelves, b: Book) {
    s.lastTs == b.last && forall d: Dir :: Plain(ShelfAt(g, d).Records()) == b.In(d)
  }

  ghost predicate Sound(lib: Library, k: Settings, s: State, g: Shelves, b: Book) {
    ShelvesTell(lib, s, g) && Agrees(s, g, b) && Orderly(k, b)
  }

  lemma {:induction false} SoundIsUsable(lib: Library, s: State, g: Shelves)
    requires ShelvesTell(lib, s, g)
    ensures Usable(s)
  {
    hide Tells, W.Usable;
    forall d | d in s.active ensures W.Usable(s.active[d]) {
      assert Tells(lib, SealedIn(s, d), OpenIn(s, d), ShelfAt(g, d));
      TellsIsUsable(lib, SealedIn(s, d), s.active[d], ShelfAt(g, d));
    }
  }

  lemma {:induction false} NewIsSound(lib: Library, k: Settings)
    ensures Sound(lib, k, NEW, map[], BLANK)
  {
    hide BucketOf;
  }

  lemma PlainSnoc(recs: seq<Rec>, r: Rec)
    ensures Plain(recs + [r]) == Plain(recs) + [(r.ts, r.body)]
  {}

  // --- Sealing ---

  lemma OpenIsTold(lib: Library, sealed: seq<Files>, open: Option<W.State>, sh: Shelf)
    requires Tells(lib, sealed, open, sh)
    ensures open.Some? <==> sh.open.Some?
    ensures open.None? ==> sh.Durable() == sh.Records()
  {
    hide AllHold, Tiled, H.Tells, ViewRecs;
  }

  /** Sealing any set of writers loses no record. */
  lemma {:induction false} SealPartsTells(lib: Library, k: Settings, s: State, g: Shelves, stale: set<Dir>)
      returns (g': Shelves)
    requires Lawful(lib) && ShelvesTell(lib, s, g) && Usable(s) && SealFits(lib, k, s, stale)
    ensures var s' := SealParts(lib, k, s, stale);
      && ShelvesTell(lib, s', g') && Usable(s') && s'.lastTs == s.lastTs
      && (forall d: Dir :: OpenIn(s', d) == if d in stale then None else OpenIn(s, d))
      && (forall d: Dir :: ShelfAt(g', d).Records() == ShelfAt(g, d).Records())
      && (forall d: Dir :: d !in stale ==> ShelfAt(g', d) == ShelfAt(g, d))
      && (forall d: Dir :: d in stale ==> ShelfAt(g', d).Durable() == ShelfAt(g, d).Records())
      && AllContinue(g, g') && (Roomy(s) ==> Roomy(s')) && (Roomy(s) && ViewsFit(g) ==> ViewsFit(g'))
  {
    hide Tells, W.Sealed, W.Usable, Lawful, Continues, DictRoom.Fits, ShelfFits;
    var s' := SealParts(lib, k, s, stale);
    assert forall d: Dir :: d in s.active ==> OpenIn(s, d).Some?;
    forall d: Dir | d in s.active ensures d in g && g[d].open.Some? {
      OpenIsTold(lib, SealedIn(s, d), OpenIn(s, d), ShelfAt(g, d));
    }
    g' := map d | d in g :: if d in stale && d in s.active then Sealing(lib, k.writer, s.active[d], g[d]) else g[d];
    forall d: Dir
      ensures Tells(lib, SealedIn(s', d), OpenIn(s', d), ShelfAt(g', d))
      ensures OpenIn(s', d) == if d in stale then None else OpenIn(s, d)
      ensures ShelfAt(g', d).Records() == ShelfAt(g, d).Records()
      ensures d in stale ==> ShelfAt(g', d).Durable() == ShelfAt(g, d).Records()
      ensures Continues(ShelfAt(g, d), ShelfAt(g', d))
      ensures Roomy(s) && ShelfFits(ShelfAt(g, d)) ==> ShelfFits(ShelfAt(g', d))
    {
      assert Tells(lib, SealedIn(s, d), OpenIn(s, d), ShelfAt(g, d));
      ShelfContinues(ShelfAt(g, d));
      if d in stale && d in s.active {
        SealingTells(lib, k.writer, SealedIn(s, d), s.active[d], g[d]);
      } else if d in stale {
        OpenIsTold(lib, SealedIn(s, d), OpenIn(s, d), ShelfAt(g, d));
      }
    }
  }

  lemma SameViewsFit(g: Shelves, d: Dir)
    ensures forall open :: ShelfFits(ShelfAt(g, d)) ==> ShelfFits(ShelfAt(g, d).(open := open))
  {}

  lemma ShelfContinues(sh: Shelf)
    ensures Continues(sh, sh)
  {}

  // --- Appending ---

  lemma {:induction false} OpenPartTells(lib: Library, k: Settings, s: State, g: Shelves, d: Dir, ts: u64, now: u64)
      returns (g': Shelves)
    requires Lawful(lib) && ShelvesTell(lib, s, g) && d !in s.active && |ShelfAt(g, d).Records()| < U64_END
    ensures var s' := OpenPart(lib, k, s, d, ts, now);
      && ShelvesTell(lib, s', g') && s'.lastTs == s.lastTs && s'.active.Keys == s.active.Keys + {d}
      && s'.active[d] == W.Created(PartHeader(k.precision, d.bucket, ts, |ShelfAt(g, d).Records()|, now), k.withDict)
      && (forall e: Dir :: ShelfAt(g', e).Records() == ShelfAt(g, e).Records()) && AllContinue(g, g')
      && (ViewsFit(g) ==> ViewsFit(g'))
  {
    hide Tells, W.Created, Lawful, NextOffset, Continues, ShelfFits;
    SameViewsFit(g, d);
    var s' := OpenPart(lib, k, s, d, ts, now);
    var sh := ShelfAt(g, d);
    assert Tells(lib, SealedIn(s, d), None, sh);
    NewPartFits(lib, SealedIn(s, d), sh);
    var header := PartHeader(k.precision, d.bucket, ts, Low64(NextOffset(lib, SealedIn(s, d))), now);
    CreatingTells(lib, SealedIn(s, d), sh, header, k.withDict);
    ClosedHolds(lib, SealedIn(s, d), sh);
    g' := g[d := sh.(open := Some(H.History(header, [], [], if k.withDict then Some([]) else None)))];
    forall e: Dir
      ensures Tells(lib, SealedIn(s', e), OpenIn(s', e), ShelfAt(g', e))
      ensures ShelfAt(g', e).Records() == ShelfAt(g, e).Records()
      ensures Continues(ShelfAt(g, e), ShelfAt(g', e))
    {
      assert Tells(lib, SealedIn(s, e), OpenIn(s, e), ShelfAt(g, e));
      ShelfContinues(ShelfAt(g, e));
    }
  }

  lemma ClosedHolds(lib: Library, sealed: seq<Files>, sh: Shelf)
    requires Tells(lib, sealed, None, sh)
    ensures |ViewRecs(sh.views)| == |sh.Records()|
  {
    hide AllHold, Tiled, ViewRecs;
  }

  lemma {:induction false} NewPartFits(lib: Library, sealed: seq<Files>, sh: Shelf)
    requires Lawful(lib) && Tells(lib, sealed, None, sh) && |sh.Records()| < U64_END
    ensures Low64(NextOffset(lib, sealed)) == |ViewRecs(sh.views)|
  {
    hide AllHold, Tiled, Lawful, ViewRecs, NextOffset;
    NextOffsetIs(lib, sealed, sh.views);
  }

  /** The directories with a writer once one is ready in `d`: those of the stream's earlier buckets are closed. */
  function Readied(ws: set<Dir>, d: Dir): set<Dir> { (set e | e in ws && !(e.stream == d.stream && e.bucket < d.bucket)) + {d} }

  lemma {:induction false} EnsurePartTells(lib: Library, k: Settings, s: State, g: Shelves, d: Dir, ts: u64, now: u64)
      returns (g': Shelves)
    requires Lawful(lib) && ShelvesTell(lib, s, g) && Usable(s) && |ShelfAt(g, d).Records()| < U64_END
    ensures var r := EnsurePart(lib, k, s, d, ts, now);
      r.Some? ==>
        && ShelvesTell(lib, r.value, g') && r.value.lastTs == s.lastTs && r.value.active.Keys == Readied(s.active.Keys, d)
        && (forall e: Dir :: ShelfAt(g', e).Records() == ShelfAt(g, e).Records())
        && AllContinue(g, g') && (Roomy(s) && ViewsFit(g) ==> ViewsFit(g'))
        && r.value.active[d] ==
           if d in s.active && s.active[d].fileOff + |s.active[d].block| < k.partBytes then s.active[d]
           else W.Created(PartHeader(k.precision, d.bucket, ts, |ShelfAt(g, d).Records()|, now), k.withDict)
  {
    hide Tells, W.Usable, Lawful, BucketOf, SealParts, OpenPart, SealFits, ShelvesTell, Shelf.Records,
      AllContinue, Roomy, ViewsFit;
    g' := g;
    var stale := Stale(s, d.bucket, Some(d.stream));
    if SealFits(lib, k, s, stale) {
      var s1 := SealParts(lib, k, s, stale);
      g' := SealPartsTells(lib, k, s, g, stale);
      KeysOf(s, s1, stale);
      ReadiedIs(s, d);
      assert OpenIn(s1, d) == OpenIn(s, d);
      if Full(k, s1, d) && SealFits(lib, k, s1, {d}) {
        var s2 := SealParts(lib, k, s1, {d});
        var g2 := SealPartsTells(lib, k, s1, g', {d});
        assert OpenIn(s2, d) == None;
        KeysOf(s1, s2, {d});
        assert ShelfAt(g2, d).Records() == ShelfAt(g', d).Records() == ShelfAt(g, d).Records();
        var g3 := OpenPartTells(lib, k, s2, g2, d, ts, now);
        AllContinueOn(g, g', g2);
        AllContinueOn(g, g2, g3);
        g' := g3;
      }
    }
  }

  lemma KeysOf(s: State, s': State, stale: set<Dir>)
    requires forall d: Dir :: OpenIn(s', d) == if d in stale then None else OpenIn(s, d)
    ensures s'.active.Keys == s.active.Keys - stale
  {
    forall d: Dir ensures d in s'.active.Keys <==> d in s.active.Keys - stale {
      assert OpenIn(s', d) == if d in stale then None else OpenIn(s, d);
    }
  }

  lemma ReadiedIs(s: State, d: Dir)
    ensures Readied(s.active.Keys, d) == s.active.Keys - Stale(s, d.bucket, Some(d.stream)) + {d}
  {}

  lemma {:induction false} NotBackwards(lib: Library, k: Settings, s: State, g: Shelves, b: Book, d: Dir, ts: u64)
    requires Lawful(lib) && ShelvesTell(lib, s, g) && Agrees(s, g, b) && Orderly(k, b) && d in s.active
    requires d.stream in s.lastTs ==> s.lastTs[d.stream] <= ts
    ensures !W.Backwards(s.active[d], ts)
  {
    hide BucketOf, Lawful, H.Tells, AllHold, Tiled, ViewRecs, RecsOf;
    var w := s.active[d];
    var sh := ShelfAt(g, d);
    assert Tells(lib, SealedIn(s, d), OpenIn(s, d), sh);
    LastTsIs(lib, w, sh.open.value);
    assert Dated(k, d, b.In(d), b.last);
    LastOfTail(ViewRecs(sh.views), sh.open.value.Records());
    assert Plain(sh.Records()) == b.In(d);
  }

  lemma LastOfTail(xs: seq<Rec>, ys: seq<Rec>)
    ensures ys != [] ==> xs + ys != [] && Plain(xs + ys)[|Plain(xs + ys)| - 1].0 == ys[|ys| - 1].ts
  {}

  /** What an append does to a log with a part to append to, and what a refused one leaves. */
  lemma {:induction false} AppendToPart(lib: Library, k: Settings, s: State, g: Shelves, b: Book, d: Dir, ts: u64,
      body: Body.Body) returns (g': Shelves)
    requires Lawful(lib) && ShelvesTell(lib, s, g) && Usable(s) && Agrees(s, g, b) && d in s.active && |b.In(d)| + 1 < U64_END
    ensures var (r, w) := W.Appended(lib, k.writer, s.active[d], ts, body);
      r.Ok? ==> && ShelvesTell(lib, s.(active := s.active[d := w]), g') && r.value == |b.In(d)|
                && (forall e: Dir :: Plain(ShelfAt(g', e).Records()) == if e == d then b.In(d) + [(ts, body)] else b.In(e))
                && AllContinue(g, g') && (ViewsFit(g) ==> ViewsFit(g'))
    ensures var (r, w) := W.Appended(lib, k.writer, s.active[d], ts, body);
      W.Refuses(lib, k.writer, s.active[d], ts, body) ==> g' == g && ShelvesTell(lib, s.(active := s.active[d := w]), g)
  {
    hide W.Refuses, Tells, W.Appended, W.Usable, Lawful, Shelf.Records, Continues, ShelfFits;
    SameViewsFit(g, d);
    g' := g;
    var (r, w) := W.Appended(lib, k.writer, s.active[d], ts, body);
    var sh := ShelfAt(g, d);
    assert Tells(lib, SealedIn(s, d), OpenIn(s, d), sh) && Plain(sh.Records()) == b.In(d);
    if r.Ok? {
      OpenIsTold(lib, SealedIn(s, d), OpenIn(s, d), sh);
      CountedBefore(lib, SealedIn(s, d), s.active[d], sh);
      AppendingTells(lib, k.writer, SealedIn(s, d), s.active[d], sh, ts, body);
      var rec := Rec(ts, body, Body.Encode(lib, k.writer.dict, s.active[d].dict, body).0.value);
      PlainSnoc(sh.Records(), rec);
      g' := g[d := sh.(open := Some(H.AppendedHistory(lib, k.writer, s.active[d], sh.open.value, ts, body)))];
      var s' := s.(active := s.active[d := w]);
      forall e: Dir
        ensures Tells(lib, SealedIn(s', e), OpenIn(s', e), ShelfAt(g', e))
        ensures Plain(ShelfAt(g', e).Records()) == if e == d then b.In(d) + [(ts, body)] else b.In(e)
        ensures Continues(ShelfAt(g, e), ShelfAt(g', e))
      {
        ShelfContinues(ShelfAt(g, e));
        assert Tells(lib, SealedIn(s, e), OpenIn(s, e), ShelfAt(g, e)) && Plain(ShelfAt(g, e).Records()) == b.In(e);
      }
    } else if W.Refuses(lib, k.writer, s.active[d], ts, body) {
      CountedBefore(lib, SealedIn(s, d), s.active[d], sh);
      RefusingTells(lib, k.writer, SealedIn(s, d), s.active[d], sh, ts, body);
      var s' := s.(active := s.active[d := w]);
      forall e: Dir ensures Tells(lib, SealedIn(s', e), OpenIn(s', e), ShelfAt(g', e)) {
        assert Tells(lib, SealedIn(s, e), OpenIn(s, e), ShelfAt(g, e));
      }
    }
  }

  lemma CountedBefore(lib: Library, sealed: seq<Files>, w: W.State, sh: Shelf)
    requires Tells(lib, sealed, Some(w), sh)
    ensures w.nextOffset == |sh.Records()|
  {
    hide AllHold, Tiled, OpenTells, Shelf.Records;
    NextOffsetCounts(lib, w, sh);
  }

  lemma {:induction false} AppendShelves(lib: Library, k: Settings, s: State, g: Shelves, b: Book, raw: u64, now: u64,
      body: Body.Body) returns (g': Shelves)
    requires Lawful(lib) && Sound(lib, k, s, g, b) && Usable(s)
    requires forall d: Dir :: |b.In(d)| + 1 < U64_END
    ensures var (r, next) := Append(lib, k, s, raw, now, body);
      && (r.Err? ==> !r.error.TimeBackwards?)
      && (r == Err(MissingPartition) <==> StreamOf(k, body).None?)
      && (StreamOf(k, body).None? ==> next == Some(s))
      && (next.Some? ==>
            && Sound(lib, k, next.value, g', if r.Ok? then Write(k, b, raw, StreamOf(k, body).value, body) else b)
            && AllContinue(g, g') && (Roomy(s) && ViewsFit(g) ==> ViewsFit(g')))
      && (next.Some? && StreamOf(k, body).Some? ==>
            var d := Dir(BucketOf(k, Clamped(b.last, StreamOf(k, body).value, raw)), StreamOf(k, body).value);
            && (r.Ok? ==> r.value == |b.In(d)|) && next.value.active.Keys == Readied(s.active.Keys, d))
  {
    hide ShelvesTell, Orderly, Usable, Lawful, BucketOf, EnsurePart, W.Appended, Agrees, W.Usable, StreamOf, Clamped,
      AllContinue, Roomy, ViewsFit, W.Refuses, Readied, Length;
    g' := g;
    ItselfContinues(g);
    if StreamOf(k, body).Some? {
      var stream := StreamOf(k, body).value;
      var ts := Clamped(s.lastTs, stream, raw);
      ClampedIs(s.lastTs, stream, raw);
      var d := Dir(BucketOf(k, ts), stream);
      FitsBefore(s, g, b, d);
      var g1 := EnsurePartTells(lib, k, s, g, d, ts, now);
      var part := EnsurePart(lib, k, s, d, ts, now);
      if part.Some? {
        var s1 := part.value;
        AgreesStill(s, g, s1, g1, b);
        NotBackwards(lib, k, s1, g1, b, d, ts);
        UsableAt(s1, d);
        WhyRefused(lib, k, s1.active[d], ts, body);
        g' := AppendToPart(lib, k, s1, g1, b, d, ts, body);
        var (r, w) := W.Appended(lib, k.writer, s1.active[d], ts, body);
        var s2 := s1.(active := s1.active[d := w]);
        if r.Ok? {
          var s' := s2.(lastTs := s2.lastTs[stream := ts]);
          WriteIsOrderly(k, b, raw, stream, body);
          AgreesNow(k, s, s', g', b, raw, stream, body);
          TellsIgnoresClock(lib, s2, s', g');
          AllContinueOn(g, g1, g');
        } else if W.Refuses(lib, k.writer, s1.active[d], ts, body) {
          AgreesStill(s1, g1, s2, g1, b);
        }
      }
    }
  }

  /** An append files the record in the bucket of its clamped timestamp, at the next offset of that directory, and
      changes nothing else; a refused one changes no record. It never fails for its time, and a record without its
      partition field is the only other one refused for what it is. Either way the stream's writers in earlier buckets
      are closed and one is open in the record's. */
  lemma {:induction false} AppendFiles(lib: Library, k: Settings, s: State, g: Shelves, b: Book, raw: u64, now: u64,
      body: Body.Body) returns (g': Shelves)
    requires Lawful(lib) && Sound(lib, k, s, g, b) && Usable(s)
    requires forall d: Dir :: |b.In(d)| + 1 < U64_END
    ensures var (r, next) := Append(lib, k, s, raw, now, body);
      && (r.Err? ==> !r.error.TimeBackwards?)
      && (r == Err(MissingPartition) <==> StreamOf(k, body).None?)
      && (StreamOf(k, body).None? ==> next == Some(s))
      && (next.Some? ==>
            && Sound(lib, k, next.value, g', if r.Ok? then Write(k, b, raw, StreamOf(k, body).value, body) else b)
            && AllContinue(g, g') && (Roomy(s) && ViewsFit(g) ==> ViewsFit(g')))
      && (next.Some? && StreamOf(k, body).Some? ==>
            var d := Dir(BucketOf(k, Clamped(b.last, StreamOf(k, body).value, raw)), StreamOf(k, body).value);
            && (r.Ok? ==> r.value == |b.In(d)|) && next.value.active.Keys == Readied(s.active.Keys, d)
            && d.bucket * Length(k) <= Clamped(b.last, d.stream, raw) < (d.bucket + 1) * Length(k))
  {
    hide *;
    g' := AppendShelves(lib, k, s, g, b, raw, now, body);
    if StreamOf(k, body).Some? { BucketSpan(k, Clamped(b.last, StreamOf(k, body).value, raw)); }
  }

  lemma FitsBefore(s: State, g: Shelves, b: Book, d: Dir)
    requires Agrees(s, g, b) && |b.In(d)| + 1 < U64_END
    ensures |ShelfAt(g, d).Records()| < U64_END && s.lastTs == b.last
  {
    hide Shelf.Records;
    assert Plain(ShelfAt(g, d).Records()) == b.In(d);
  }

  lemma AgreesStill(s: State, g: Shelves, s': State, g': Shelves, b: Book)
    requires Agrees(s, g, b) && s'.lastTs == s.lastTs
    requires forall e: Dir :: ShelfAt(g', e).Records() == ShelfAt(g, e).Records()
    ensures Agrees(s', g', b)
  {
    hide Shelf.Records, Plain;
    forall d: Dir ensures Plain(ShelfAt(g', d).Records()) == b.In(d) {
      assert Plain(ShelfAt(g, d).Records()) == b.In(d);
    }
  }

  lemma AgreesNow(k: Settings, s: State, s': State, g': Shelves, b: Book, raw: u64, stream: Stream, body: Body.Body)
    requires s.lastTs == b.last
    requires var ts := Clamped(s.lastTs, stream, raw);
      var d := Dir(BucketOf(k, ts), stream);
      && s'.lastTs == s.lastTs[stream := ts]
      && forall e: Dir :: Plain(ShelfAt(g', e).Records()) == if e == d then b.In(d) + [(ts, body)] else b.In(e)
    ensures Agrees(s', g', Write(k, b, raw, stream, body))
  {
    hide Shelf.Records, Plain, BucketOf, Clamped;
  }

  lemma TellsIgnoresClock(lib: Library, s: State, s': State, g: Shelves)
    requires ShelvesTell(lib, s, g) && s'.sealed == s.sealed && s'.active == s.active
    ensures ShelvesTell(lib, s', g)
  {
    hide Tells;
    forall d: Dir ensures Tells(lib, SealedIn(s', d), OpenIn(s', d), ShelfAt(g, d)) {
      assert Tells(lib, SealedIn(s, d), OpenIn(s, d), ShelfAt(g, d));
    }
  }

  lemma UsableAt(s: State, d: Dir)
    requires Usable(s) && d in s.active
    ensures W.Usable(s.active[d])
  {
    hide W.Usable;
  }

  lemma EmitOverflows(lib: Library, k: W.Config, w: W.State)
    requires W.Usable(w)
    ensures W.Emitted(lib, k, w).0.Err? ==> W.Emitted(lib, k, w).0.error == Overflow
  {
    hide Packed, W.Written, W.Indexed, W.HeaderOf;
  }

  lemma {:induction false} WhyRefused(lib: Library, k: Settings, w: W.State, ts: u64, body: Body.Body)
    requires W.Usable(w) && !W.Backwards(w, ts)
    ensures var r := W.Appended(lib, k.writer, w, ts, body).0;
      r.Err? ==> !r.error.TimeBackwards? && !r.error.MissingPartition?
  {
    hide Body.Encode, RecordFits, RecordBytes, Delta, W.Emitted, W.FlushedDict;
    var (enc, dict) := Body.Encode(lib, k.writer.dict, w.dict, body);
    if enc.Some? && RecordFits(Delta(w.lastTs, ts), enc.value) {
      var full := W.Buffered(w.(dict := dict), ts, enc.value);
      EmitOverflows(lib, k.writer, full.(dict := W.FlushedDict(lib, full.dict)));
    }
  }

  /** No record of the stream has this offset. */
  ghost predicate IsUnused(g: Shelves, stream: Stream, offset: nat) {
    forall d: Dir | d.stream == stream :: !HasOffset(ShelfAt(g, d), offset)
  }

  lemma {:induction false} UnusedAt(lib: Library, k: Settings, s: State, g: Shelves, b: Book, d: Dir, offset: nat)
    requires Sound(lib, k, s, g, b)
    ensures HasOffset(ShelfAt(g, d), offset) <==> offset < |b.In(d)|
  {
    hide Tells, HasOffset, Shelf.Records;
    OffsetsAre(lib, SealedIn(s, d), OpenIn(s, d), ShelfAt(g, d), offset);
    assert Plain(ShelfAt(g, d).Records()) == b.In(d);
  }

  lemma {:induction false} UnusedIs(lib: Library, k: Settings, s: State, g: Shelves, b: Book, stream: Stream,
      offset: nat)
    requires Sound(lib, k, s, g, b)
    ensures IsUnused(g, stream, offset) <==> forall d: Dir | d.stream == stream :: |b.In(d)| <= offset
  {
    hide Sound, HasOffset;
    forall d: Dir ensures HasOffset(ShelfAt(g, d), offset) <==> offset < |b.In(d)| { UnusedAt(lib, k, s, g, b, d, offset); }
  }

  /** No bucket of the stream holds more records than this one. */
  ghost predicate IsFullest(b: Book, home: Dir) { forall d: Dir :: d.stream == home.stream ==> |b.In(d)| <= |b.In(home)| }

  /** An append's offset is new to its stream exactly when no bucket of the stream holds more records than the one
      written to: the count starts again in every bucket. */
  lemma {:induction false} OffsetsRestartPerBucket(lib: Library, k: Settings, s: State, g: Shelves, b: Book, raw: u64,
      now: u64, body: Body.Body)
    requires Lawful(lib) && Sound(lib, k, s, g, b) && Usable(s)
    requires (forall d: Dir :: |b.In(d)| + 1 < U64_END) && Append(lib, k, s, raw, now, body).0.Ok?
    ensures var stream := StreamOf(k, body).value;
      IsUnused(g, stream, Append(lib, k, s, raw, now, body).0.value)
      <==> IsFullest(b, Dir(BucketOf(k, Clamped(b.last, stream, raw)), stream))
  {
    var stream := StreamOf(k, body).value;
    var offset := Append(lib, k, s, raw, now, body).0.value;
    UnusedIs(lib, k, s, g, b, stream, offset);
    hide Sound, Lawful, BucketOf, Append, Usable, StreamOf, Clamped, IsUnused;
    var g' := AppendFiles(lib, k, s, g, b, raw, now, body);
  }

  function OneSecondBuckets(c: Dict.Config): Settings { Settings(S, 1, 1000, W.Config(1000, Raw, c), false, None) }

  /** A second apart, in buckets of a second, two records of one stream get the same offset. */
  lemma {:induction false} TwoRecordsOneOffset(lib: Library, c: Dict.Config)
    ensures var (k, first) := (OneSecondBuckets(c), Append(lib, OneSecondBuckets(c), NEW, 0, 0, []));
      && first.0 == Ok(0)
      && var second := Append(lib, k, first.1.value, 1, 0, []);
         second.0 == Ok(0)
  {
    hide W.Sealed, W.Appended, SealParts, Append, Usable;
    FirstAppend(lib, c);
    SecondAppend(lib, c, Append(lib, OneSecondBuckets(c), NEW, 0, 0, []).1.value);
  }

  /** One stream, one small part in bucket 0. */
  predicate HasOnePart(s: State) {
    && s.sealed == map[] && s.active.Keys == {Dir(0, None)} && s.lastTs == map[None := 0]
    && var w := s.active[Dir(0, None)];
       W.Usable(w) && w.fileOff == PART_HEADER_LEN && |w.block| < 1000 && w.dict == None
  }

  lemma {:induction false} FirstAppend(lib: Library, c: Dict.Config)
    ensures Usable(NEW)
    ensures var r := Append(lib, OneSecondBuckets(c), NEW, 0, 0, []);
      r.0 == Ok(0) && HasOnePart(r.1.value)
  {
    hide W.Appended, W.Refuses, W.Usable, Append, EnsurePart;
    var (k, d) := (OneSecondBuckets(c), Dir(0, None));
    OpensFresh(lib, k, NEW, d, 0, 0);
    assert SealedIn(NEW, d) == [];
    FirstRecord(lib, c, PartHeader(S, 0, 0, 0, 0));
    AppendIs(lib, k, NEW, 0, 0, [], None, OpenPart(lib, k, NEW, d, 0, 0));
  }

  /** A part is made ready where the stream has none, in the log as it is. */
  lemma {:induction false} OpensFresh(lib: Library, k: Settings, s: State, d: Dir, ts: u64, now: u64)
    requires Usable(s) && d !in s.active && Stale(s, d.bucket, Some(d.stream)) == {}
    ensures EnsurePart(lib, k, s, d, ts, now) == Some(OpenPart(lib, k, s, d, ts, now))
  {
    hide W.Sealed, W.Usable, SealParts, SealFits, OpenPart;
    SealNothing(lib, k, s, {});
    SealNothing(lib, k, s, {d});
  }

  /** The part of bucket 0 is sealed when one is made ready in bucket 1. */
  lemma {:induction false} OpensNext(lib: Library, c: Dict.Config, s: State)
    requires HasOnePart(s)
    ensures Usable(s)
    ensures var (k, e) := (OneSecondBuckets(c), Dir(1, None));
      var s1 := SealParts(lib, k, s, {Dir(0, None)});
      && EnsurePart(lib, k, s, e, 1, 0) == Some(OpenPart(lib, k, s1, e, 1, 0))
      && s1.active == map[] && SealedIn(s1, e) == [] && s1.lastTs == s.lastTs
  {
    hide W.Sealed, W.Usable, SealParts, OpenPart;
    var (k, d, e) := (OneSecondBuckets(c), Dir(0, None), Dir(1, None));
    assert Stale(s, 1, Some(None)) == {d};
    SmallPartSeals(lib, c, s.active[d]);
    SealedApart(lib, k, s, d, e);
    SealNothing(lib, k, SealParts(lib, k, s, {d}), {e});
  }

  lemma {:induction false} SecondAppend(lib: Library, c: Dict.Config, s: State)
    requires HasOnePart(s)
    ensures Usable(s) && Append(lib, OneSecondBuckets(c), s, 1, 0, []).0 == Ok(0)
  {
    hide W.Appended, W.Refuses, SealParts, EnsurePart, W.Usable, Append;
    var (k, e) := (OneSecondBuckets(c), Dir(1, None));
    OpensNext(lib, c, s);
    var s1 := SealParts(lib, k, s, {Dir(0, None)});
    assert NextOffset(lib, SealedIn(s1, e)) == 0;
    FirstRecord(lib, c, PartHeader(S, 1, 1, 0, 0));
    AppendIs(lib, k, s, 1, 0, [], None, OpenPart(lib, k, s1, e, 1, 0));
  }

  lemma AppendIs(lib: Library, k: Settings, s: State, raw: u64, now: u64, body: Body.Body, stream: Stream, ready: State)
    requires Usable(s) && StreamOf(k, body) == Some(stream)
    requires var ts := Clamped(s.lastTs, stream, raw);
      var d := Dir(BucketOf(k, ts), stream);
      && EnsurePart(lib, k, s, d, ts, now) == Some(ready) && d in ready.active && W.Usable(ready.active[d])
    ensures var ts := Clamped(s.lastTs, stream, raw);
      var d := Dir(BucketOf(k, ts), stream);
      var (r, w) := W.Appended(lib, k.writer, ready.active[d], ts, body);
      var after := ready.(active := ready.active[d := w]);
      Append(lib, k, s, raw, now, body) ==
        if r.Ok? then (r, Some(after.(lastTs := after.lastTs[stream := ts])))
        else (r, if W.Refuses(lib, k.writer, ready.active[d], ts, body) then Some(after) else None)
  {
    hide EnsurePart, W.Appended, W.Refuses, BucketOf, StreamOf, Clamped, W.Usable;
  }

  lemma SealNothing(lib: Library, k: Settings, s: State, stale: set<Dir>)
    requires Usable(s) && stale !! s.active.Keys
    ensures SealParts(lib, k, s, stale) == s && SealFits(lib, k, s, stale)
  {
    hide W.Sealed, W.Usable;
  }

  lemma SealedApart(lib: Library, k: Settings, s: State, d: Dir, e: Dir)
    requires Usable(s) && s.active.Keys == {d} && e != d && e !in s.sealed
    ensures var s1 := SealParts(lib, k, s, {d}); Usable(s1) && s1.active == map[] && SealedIn(s1, e) == [] && s1.lastTs == s.lastTs
  {
    hide W.Sealed, W.Usable;
  }

  lemma {:induction false} FirstRecord(lib: Library, c: Dict.Config, header: PartHeader)
    requires header.baseTs < 128
    ensures var (r, w) := W.Appended(lib, W.Config(1000, Raw, c), W.Created(header, false), header.baseTs, []);
      && r == Ok(header.firstOffset) && W.Usable(w) && w.dict == None && w.lastTs == Some(header.baseTs)
      && w.fileOff == PART_HEADER_LEN && |w.block| < 1000
  {
    hide BE;
    assert Body.Encode(lib, c, None, []) == (Some([]), None);
    assert Varint.Put(header.baseTs) == [header.baseTs];
  }

  lemma {:induction false} SmallPartSeals(lib: Library, c: Dict.Config, w: W.State)
    requires W.Usable(w) && w.fileOff == PART_HEADER_LEN && |w.block| < 1000 && w.dict == None
    ensures W.Sealed(lib, W.Config(1000, Raw, c), w).0.Ok?
  {
    hide BlockHeader.Encode, Footer.Encode, IndexRow.Encode, WriteAt;
  }

  // --- Flush, seal, retain ---

  /** After a flush every record is on disk. */
  lemma {:induction false} FlushFiles(lib: Library, k: Settings, s: State, g: Shelves, b: Book) returns (g': Shelves)
    requires Lawful(lib) && Sound(lib, k, s, g, b) && Usable(s) && FlushFits(lib, k, s)
    ensures Sound(lib, k, Flush(lib, k, s), g', b)
    ensures forall d: Dir :: ShelfAt(g', d).Durable() == ShelfAt(g', d).Records() == ShelfAt(g, d).Records()
    ensures AllContinue(g, g') && (ViewsFit(g) ==> ViewsFit(g'))
  {
    hide Tells, W.Flushed, W.Usable, Lawful, Orderly, BucketOf, Shelf.Records, Shelf.Durable, Plain, Continues,
      ShelfFits;
    var s' := Flush(lib, k, s);
    assert forall d: Dir :: d in s.active ==> OpenIn(s, d).Some?;
    forall d: Dir | d in s.active ensures d in g && g[d].open.Some? {
      OpenIsTold(lib, SealedIn(s, d), OpenIn(s, d), ShelfAt(g, d));
    }
    g' := map d | d in g :: if d in s.active then g[d].(open := Some(H.FlushedHistory(lib, k.writer, s.active[d], g[d].open.value))) else g[d];
    forall d: Dir
      ensures Tells(lib, SealedIn(s', d), OpenIn(s', d), ShelfAt(g', d))
      ensures ShelfAt(g', d).Durable() == ShelfAt(g', d).Records() == ShelfAt(g, d).Records()
      ensures Continues(ShelfAt(g, d), ShelfAt(g', d))
      ensures ShelfFits(ShelfAt(g, d)) ==> ShelfFits(ShelfAt(g', d))
    {
      ShelfContinues(ShelfAt(g, d));
      SameViewsFit(g, d);
      assert Tells(lib, SealedIn(s, d), OpenIn(s, d), ShelfAt(g, d));
      if d in s.active {
        FlushingTells(lib, k.writer, SealedIn(s, d), s.active[d], g[d]);
      } else {
        OpenIsTold(lib, SealedIn(s, d), OpenIn(s, d), ShelfAt(g, d));
      }
    }
    AgreesStill(s, g, s', g', b);
  }

  /** After sealing every part, no writer is left and every record is on disk. */
  lemma {:induction false} SealFiles(lib: Library, k: Settings, s: State, g: Shelves, b: Book) returns (g': Shelves)
    requires Lawful(lib) && Sound(lib, k, s, g, b) && Usable(s) && SealFits(lib, k, s, s.active.Keys)
    ensures var s' := SealParts(lib, k, s, s.active.Keys);
      && Sound(lib, k, s', g', b) && s'.active == map[]
      && (forall d: Dir :: ShelfAt(g', d).Durable() == ShelfAt(g', d).Records() == ShelfAt(g, d).Records())
      && (Roomy(s) && ViewsFit(g) ==> ViewsFit(g'))
  {
    hide Roomy, ViewsFit, ShelvesTell, Lawful, Orderly, BucketOf, Shelf.Records, Shelf.Durable, SealFits, Usable,
      W.Sealed;
    g' := SealPartsTells(lib, k, s, g, s.active.Keys);
    AgreesStill(s, g, SealParts(lib, k, s, s.active.Keys), g', b);
    ClosedIsDurable(lib, s, g);
    assert forall d: Dir :: d !in s.active ==> OpenIn(s, d).None?;
  }

  lemma ClosedIsDurable(lib: Library, s: State, g: Shelves)
    requires ShelvesTell(lib, s, g)
    ensures forall d: Dir :: d !in s.active ==> ShelfAt(g, d).Durable() == ShelfAt(g, d).Records()
  {
    hide Tells, Shelf.Records, Shelf.Durable;
    forall d: Dir | d !in s.active ensures ShelfAt(g, d).Durable() == ShelfAt(g, d).Records() {
      assert Tells(lib, SealedIn(s, d), OpenIn(s, d), ShelfAt(g, d));
      OpenIsTold(lib, SealedIn(s, d), OpenIn(s, d), ShelfAt(g, d));
    }
  }

  lemma {:induction false} RetainShelves(lib: Library, k: Settings, s: State, g: Shelves, b: Book, ts: u64)
      returns (g': Shelves)
    requires Lawful(lib) && Sound(lib, k, s, g, b) && Usable(s) && SealFits(lib, k, s, Stale(s, BucketOf(k, ts), None))
    ensures var (dropped, s') := Retain(lib, k, s, ts);
      && Sound(lib, k, s', g', Cut(k, b, ts))
      && (forall d: Dir :: d in s'.sealed || d in s'.active ==> d.bucket >= BucketOf(k, ts))
      && (forall d: Dir :: d in s.sealed || d in s.active ==> (d.bucket in dropped <==> d.bucket < BucketOf(k, ts)))
      && (Roomy(s) && ViewsFit(g) ==> ViewsFit(g'))
      && (forall d: Dir :: d.bucket >= BucketOf(k, ts) ==> Continues(ShelfAt(g, d), ShelfAt(g', d)))
  {
    hide Roomy, ViewsFit, ShelvesTell, Lawful, Orderly, BucketOf, Shelf.Records, SealFits, Usable, SealParts, Agrees,
      Idle, ShelfAt, OpenIn, Cut, AllContinue;
    var cutoff := BucketOf(k, ts);
    var stale := Stale(s, cutoff, None);
    var s1 := SealParts(lib, k, s, stale);
    var g1 := SealPartsTells(lib, k, s, g, stale);
    KeysOf(s, s1, stale);
    SealedKeys(lib, k, s, stale);
    OneClock(s, g, b);
    AgreesStill(s, g, s1, g1, b);
    g' := map d: Dir | d in g1 && d.bucket >= cutoff :: g1[d];
    FewerFit(g1, cutoff);
    LaterContinue(g, g1, cutoff);
    IdleIs(s1, cutoff);
    var s' := Retain(lib, k, s, ts).1;
    DroppedTells(lib, s1, s', g1, cutoff);
    CutAgrees(k, s1, g1, b, ts);
    AgreesStillClock(s1, s', g', Cut(k, b, ts));
    CutIsOrderly(k, b, ts);
  }

  /** Retention removes exactly the records of buckets before the cutoff, open parts included: what is left are the
      entries that are not before the start of the interval of `ts`, and dropped are the buckets that end by then. */
  lemma {:induction false} RetainFiles(lib: Library, k: Settings, s: State, g: Shelves, b: Book, ts: u64)
      returns (g': Shelves)
    requires Lawful(lib) && Sound(lib, k, s, g, b) && Usable(s) && SealFits(lib, k, s, Stale(s, BucketOf(k, ts), None))
    ensures var (dropped, s') := Retain(lib, k, s, ts);
      && Sound(lib, k, s', g', Cut(k, b, ts))
      && (forall d: Dir :: d in s'.sealed || d in s'.active ==> d.bucket >= BucketOf(k, ts))
      && (forall d: Dir :: d in s.sealed || d in s.active ==> (d.bucket in dropped <==> d.bucket < BucketOf(k, ts)))
      && (Roomy(s) && ViewsFit(g) ==> ViewsFit(g'))
      && (forall d: Dir :: d.bucket >= BucketOf(k, ts) ==> Continues(ShelfAt(g, d), ShelfAt(g', d)))
      && (forall d: Dir :: Plain(ShelfAt(g', d).Records()) == Since(b.In(d), StartOf(k, ts)))
      && (forall d: Dir :: d in s.sealed || d in s.active ==> (d.bucket in dropped <==> EndOf(k, d.bucket) <= StartOf(k, ts)))
  {
    hide Roomy, ViewsFit, ShelvesTell, Lawful, Orderly, BucketOf, Shelf.Records, SealFits, Usable, Retain, Agrees,
      Plain,
      ShelfAt, Cut, Continues, Since, StartOf, EndOf;
    g' := RetainShelves(lib, k, s, g, b, ts);
    RetainedTimes(k, b, ts);
    forall d: Dir ensures Plain(ShelfAt(g', d).Records()) == Since(b.In(d), StartOf(k, ts)) {
      RetainedPlain(Retain(lib, k, s, ts).1, g', Cut(k, b, ts), d);
    }
  }

  lemma {:induction false} RetainedTimes(k: Settings, b: Book, ts: u64)
    requires Orderly(k, b)
    ensures forall d: Dir :: Cut(k, b, ts).In(d) == Since(b.In(d), StartOf(k, ts))
    ensures forall n: u64 {:trigger EndOf(k, n)} :: n < BucketOf(k, ts) <==> EndOf(k, n) <= StartOf(k, ts)
  {
    hide Cut, Since, StartOf, BucketOf, Orderly;
    LengthIsSome(k);
    hide Length;
    forall d: Dir ensures Cut(k, b, ts).In(d) == Since(b.In(d), StartOf(k, ts)) { CutIsSince(k, b, ts, d); }
    LaterBucket(k, ts, ts);
    forall n: u64 ensures n < BucketOf(k, ts) <==> EndOf(k, n) <= StartOf(k, ts) {
      Multiples(n, BucketOf(k, ts), Length(k));
      Multiples(BucketOf(k, ts), n, Length(k));
    }
  }

  lemma RetainedPlain(s: State, g: Shelves, b: Book, d: Dir)
    requires Agrees(s, g, b)
    ensures Plain(ShelfAt(g, d).Records()) == b.In(d)
  {
    hide Plain, Shelf.Records;
  }

  lemma IdleIs(s: State, cutoff: u64)
    requires forall d: Dir :: d in s.active ==> d.bucket >= cutoff
    ensures forall d: Dir :: d in s.sealed || d in s.active ==> (d.bucket in Idle(s, cutoff) <==> d.bucket < cutoff)
    ensures (map d: Dir | d in s.sealed && d.bucket !in Idle(s, cutoff) :: s.sealed[d]) == map d: Dir | d in s.sealed && d.bucket >= cutoff :: s.sealed[d]
  {}

  lemma LaterContinue(g: Shelves, g1: Shelves, cutoff: u64)
    requires AllContinue(g, g1)
    ensures forall d: Dir :: d.bucket >= cutoff ==> Continues(ShelfAt(g, d), ShelfAt(map e: Dir | e in g1 && e.bucket >= cutoff :: g1[e], d))
  {
    hide Continues;
    var fewer := map e: Dir | e in g1 && e.bucket >= cutoff :: g1[e];
    forall d: Dir | d.bucket >= cutoff ensures Continues(ShelfAt(g, d), ShelfAt(fewer, d)) {
      assert Continues(ShelfAt(g, d), ShelfAt(g1, d));
    }
  }

  lemma FewerFit(g: Shelves, cutoff: u64)
    ensures ViewsFit(g) ==> ViewsFit(map d: Dir | d in g && d.bucket >= cutoff :: g[d])
  {
    var fewer := map d: Dir | d in g && d.bucket >= cutoff :: g[d];
    if ViewsFit(g) {
      forall d: Dir ensures ShelfFits(ShelfAt(fewer, d)) { assert ShelfFits(ShelfAt(g, d)); }
    }
  }

  lemma OneClock(s: State, g: Shelves, b: Book)
    requires Agrees(s, g, b)
    ensures s.lastTs == b.last
  {}

  lemma AgreesStillClock(s: State, s': State, g: Shelves, b: Book)
    requires Agrees(s, g, b) && s'.lastTs == s.lastTs
    ensures Agrees(s', g, b)
  {
    hide Shelf.Records, Plain;
  }

  lemma SealedKeys(lib: Library, k: Settings, s: State, stale: set<Dir>)
    requires Usable(s) && stale <= s.active.Keys
    ensures SealParts(lib, k, s, stale).sealed.Keys == s.sealed.Keys + stale
  {
    hide Usable, W.Sealed;
  }

  lemma {:induction false} DroppedTells(lib: Library, s: State, s': State, g: Shelves, cutoff: u64)
    requires ShelvesTell(lib, s, g) && s'.active == s.active
    requires forall d: Dir :: d in s.active ==> d.bucket >= cutoff
    requires s'.sealed == map d: Dir | d in s.sealed && d.bucket >= cutoff :: s.sealed[d]
    ensures ShelvesTell(lib, s', map d: Dir | d in g && d.bucket >= cutoff :: g[d])
  {
    hide Tells;
    var g' := map d: Dir | d in g && d.bucket >= cutoff :: g[d];
    forall d: Dir ensures Tells(lib, SealedIn(s', d), OpenIn(s', d), ShelfAt(g', d)) {
      assert Tells(lib, SealedIn(s, d), OpenIn(s, d), ShelfAt(g, d));
      NothingTells(lib);
    }
  }

  lemma NothingTells(lib: Library)
    ensures Tells(lib, [], None, EMPTY)
  {}

  lemma CutAgrees(k: Settings, s: State, g: Shelves, b: Book, ts: u64)
    requires Agrees(s, g, b)
    ensures Agrees(s, map d: Dir | d in g && d.bucket >= BucketOf(k, ts) :: g[d], Cut(k, b, ts))
  {
    hide BucketOf;
    var g' := map d: Dir | d in g && d.bucket >= BucketOf(k, ts) :: g[d];
    forall d: Dir ensures Plain(ShelfAt(g', d).Records()) == Cut(k, b, ts).In(d) {
      assert Plain(ShelfAt(g, d).Records()) == b.In(d);
      assert EMPTY.Records() == [];
    }
  }

  // --- Runs ---

  /** One call, and of an append whether it was taken. */
  datatype Op = AppendOp(raw: u64, now: u64, body: Body.Body, taken: bool) | FlushOp | SealOp | RetainOp(ts: u64)

  /** One step of a run; an append that refuses its record is one, too. */
  function Step(lib: Library, k: Settings, s: State, op: Op): (s': Option<State>)
    requires Usable(s)
  {
    match op
    case AppendOp(raw, now, body, taken) =>
      var (r, next) := Append(lib, k, s, raw, now, body);
      if r.Ok? == taken then next else None
    case FlushOp => if FlushFits(lib, k, s) then Some(Flush(lib, k, s)) else None
    case SealOp => if SealFits(lib, k, s, s.active.Keys) then Some(SealParts(lib, k, s, s.active.Keys)) else None
    case RetainOp(ts) => if SealFits(lib, k, s, Stale(s, BucketOf(k, ts), None)) then Some(Retain(lib, k, s, ts).1) else None
  }

  function BookStep(k: Settings, b: Book, op: Op): Book {
    match op
    case AppendOp(raw, _, body, taken) =>
      if taken && StreamOf(k, body).Some? then Write(k, b, raw, StreamOf(k, body).value, body) else b
    case FlushOp => b
    case SealOp => b
    case RetainOp(ts) => Cut(k, b, ts)
  }

  /** What a log should hold after `ops`, told without files, parts or writers. */
  function BookOf(k: Settings, ops: seq<Op>): Book {
    if ops == [] then BLANK else BookStep(k, BookOf(k, ops[..|ops| - 1]), ops[|ops| - 1])
  }

  /** Where an append is directed when the clocks of the streams stand at `last`. */
  function Target(k: Settings, last: map<Stream, u64>, op: Op): Option<Dir> {
    if op.AppendOp? && StreamOf(k, op.body).Some? then
      var stream := StreamOf(k, op.body).value;
      Some(Dir(BucketOf(k, Clamped(last, stream, op.raw)), stream))
    else None
  }

  function WritersStep(k: Settings, b: Book, ws: set<Dir>, op: Op): set<Dir> {
    match op
    case AppendOp(_, _, _, _) => if Target(k, b.last, op).Some? then Readied(ws, Target(k, b.last, op).value) else ws
    case FlushOp => ws
    case SealOp => {}
    case RetainOp(ts) => set d | d in ws && d.bucket >= BucketOf(k, ts)
  }

  /** Which directories have a writer after `ops`, told without files or parts. */
  function Writers(k: Settings, ops: seq<Op>): set<Dir> {
    if ops == [] then {}
    else WritersStep(k, BookOf(k, ops[..|ops| - 1]), Writers(k, ops[..|ops| - 1]), ops[|ops| - 1])
  }

  lemma {:induction false} BooksAreSmall(k: Settings, ops: seq<Op>, d: Dir)
    ensures |BookOf(k, ops).In(d)| <= |ops|
    decreases |ops|
  {
    hide BucketOf, StreamOf, Clamped;
    if ops != [] { BooksAreSmall(k, ops[..|ops| - 1], d); }
  }

  /** How many records of a directory are known to be on disk: all there were at the last flush or seal. */
  function Floor(k: Settings, ops: seq<Op>, d: Dir): nat {
    if ops == [] then 0
    else
      var init := ops[..|ops| - 1];
      match ops[|ops| - 1]
      case AppendOp(_, _, _, _) => Floor(k, init, d)
      case FlushOp => |BookOf(k, init).In(d)|
      case SealOp => |BookOf(k, init).In(d)|
      case RetainOp(ts) => if d.bucket < BucketOf(k, ts) then 0 else Floor(k, init, d)
  }

  /** What a step leaves on disk: everything after a flush or a seal, never less than before otherwise. */
  ghost predicate DiskGrows(k: Settings, op: Op, b: Book, g: Shelves, g': Shelves) {
    forall d: Dir ::
      && (op.FlushOp? || op.SealOp? ==> |ShelfAt(g', d).Durable()| == |b.In(d)|)
      && (op.AppendOp? || (op.RetainOp? && d.bucket >= BucketOf(k, op.ts)) ==>
            |ShelfAt(g, d).Durable()| <= |ShelfAt(g', d).Durable()|)
  }

  lemma {:induction false} DurableGrows(sh: Shelf, later: Shelf)
    requires Continues(sh, later)
    ensures |sh.Durable()| <= |later.Durable()|
  {
    hide RecsOf;
    ViewsGrow(sh.views, later.views);
    if sh.open.Some? {
      if |later.views| > |sh.views| {
        var n := |sh.views|;
        assert later.views[..n + 1][..n] == sh.views;
        ViewsGrow(later.views[..n + 1], later.views);
        H.RecsOfPrefix(sh.open.value.chunks, later.views[n].chunks);
      } else {
        assert later.views == sh.views;
        H.RecsOfPrefix(sh.open.value.chunks, later.open.value.chunks);
      }
    }
  }

  lemma {:induction false} ViewsGrow(views: seq<View>, later: seq<View>)
    requires views <= later
    ensures |ViewRecs(views)| <= |ViewRecs(later)|
    decreases |later|
  {
    hide RecsOf;
    if |views| < |later| {
      ViewsGrow(views, later[..|later| - 1]);
    } else {
      assert views == later;
    }
  }

  lemma {:induction false} AllDurableGrow(g: Shelves, g': Shelves)
    requires AllContinue(g, g')
    ensures forall d: Dir :: |ShelfAt(g, d).Durable()| <= |ShelfAt(g', d).Durable()|
  {
    hide Continues, Shelf.Durable;
    forall d: Dir ensures |ShelfAt(g, d).Durable()| <= |ShelfAt(g', d).Durable()| {
      DurableGrows(ShelfAt(g, d), ShelfAt(g', d));
    }
  }

  lemma {:induction false} LaterDurableGrow(g: Shelves, g': Shelves, cutoff: u64)
    requires forall d: Dir :: d.bucket >= cutoff ==> Continues(ShelfAt(g, d), ShelfAt(g', d))
    ensures forall d: Dir :: d.bucket >= cutoff ==> |ShelfAt(g, d).Durable()| <= |ShelfAt(g', d).Durable()|
  {
    hide Continues, Shelf.Durable;
    forall d: Dir | d.bucket >= cutoff ensures |ShelfAt(g, d).Durable()| <= |ShelfAt(g', d).Durable()| {
      DurableGrows(ShelfAt(g, d), ShelfAt(g', d));
    }
  }

  lemma {:induction false} DurableCounts(lib: Library, k: Settings, s: State, g: Shelves, b: Book, g': Shelves)
    requires Sound(lib, k, s, g, b)
    requires forall d: Dir :: ShelfAt(g', d).Durable() == ShelfAt(g', d).Records() == ShelfAt(g, d).Records()
    ensures forall d: Dir :: |ShelfAt(g', d).Durable()| == |b.In(d)|
  {
    hide ShelvesTell, Orderly, BucketOf, Shelf.Records, Shelf.Durable;
    forall d: Dir ensures |ShelfAt(g', d).Durable()| == |b.In(d)| {
      assert ShelfAt(g', d).Durable() == ShelfAt(g, d).Records();
      assert Plain(ShelfAt(g, d).Records()) == b.In(d);
    }
  }

  lemma FlushedWriters(lib: Library, k: Settings, s: State)
    requires Usable(s) && FlushFits(lib, k, s)
    ensures Flush(lib, k, s).active.Keys == s.active.Keys
  {
    hide W.Flushed;
  }

  lemma RetainedWriters(lib: Library, k: Settings, s: State, ts: u64)
    requires Usable(s)
    ensures Retain(lib, k, s, ts).1.active.Keys == set d | d in s.active.Keys && d.bucket >= BucketOf(k, ts)
  {
    hide BucketOf, W.Sealed, Idle;
  }

  lemma {:induction false} StepFiles(lib: Library, k: Settings, s: State, g: Shelves, b: Book, op: Op)
      returns (g': Shelves)
    requires Lawful(lib) && Sound(lib, k, s, g, b) && Usable(s) && (forall d: Dir :: |b.In(d)| + 1 < U64_END)
    ensures var next := Step(lib, k, s, op);
      next.Some? ==>
        && Sound(lib, k, next.value, g', BookStep(k, b, op)) && (op.AppendOp? || op.FlushOp? ==> AllContinue(g, g'))
        && (Roomy(s) && ViewsFit(g) ==> ViewsFit(g')) && DiskGrows(k, op, b, g, g')
        && next.value.active.Keys == WritersStep(k, b, s.active.Keys, op)
  {
    hide Readied, Roomy, ViewsFit, Sound, Usable, Lawful, Append, Flush, SealParts, Retain, FlushFits, SealFits,
      BucketOf,
      StreamOf, AllContinue, Continues, Shelf.Durable, Shelf.Records, ShelfAt;
    g' := g;
    ItselfContinues(g);
    match op {
      case AppendOp(raw, now, body, taken) =>
        var g1 := AppendFiles(lib, k, s, g, b, raw, now, body);
        if Append(lib, k, s, raw, now, body).1.Some? {
          g' := g1;
          AllDurableGrow(g, g');
        }
      case FlushOp =>
        if FlushFits(lib, k, s) {
          g' := FlushFiles(lib, k, s, g, b);
          FlushedWriters(lib, k, s);
          DurableCounts(lib, k, s, g, b, g');
        }
      case SealOp =>
        if SealFits(lib, k, s, s.active.Keys) {
          g' := SealFiles(lib, k, s, g, b);
          assert SealParts(lib, k, s, s.active.Keys).active.Keys == {};
          DurableCounts(lib, k, s, g, b, g');
        }
      case RetainOp(ts) =>
        if SealFits(lib, k, s, Stale(s, BucketOf(k, ts), None)) {
          g' := RetainFiles(lib, k, s, g, b, ts);
          LaterDurableGrow(g, g', BucketOf(k, ts));
          RetainedWriters(lib, k, s, ts);
        }
    }
  }

  /** `states[i + 1]` is what `ops[i]` made of `states[i]`, from a fresh log. */
  ghost predicate IsRun(lib: Library, k: Settings, ops: seq<Op>, states: seq<State>) {
    && |states| == |ops| + 1 && states[0] == NEW
    && forall i :: 0 <= i < |ops| ==> Usable(states[i]) && Step(lib, k, states[i], ops[i]) == Some(states[i + 1])
  }

  /** At least what was there at the last flush or seal is on disk. */
  ghost predicate Reaches(k: Settings, ops: seq<Op>, g: Shelves) {
    forall d: Dir :: Floor(k, ops, d) <= |ShelfAt(g, d).Durable()|
  }

  lemma {:induction false} FloorHolds(k: Settings, ops: seq<Op>, op: Op, g: Shelves, g': Shelves)
    requires Reaches(k, ops, g) && DiskGrows(k, op, BookOf(k, ops), g, g')
    ensures Reaches(k, ops + [op], g')
  {
    hide BucketOf, BookOf, Shelf.Durable, ShelfAt;
    assert (ops + [op])[..|ops|] == ops;
    forall d: Dir ensures Floor(k, ops + [op], d) <= |ShelfAt(g', d).Durable()| {
      assert Floor(k, ops, d) <= |ShelfAt(g, d).Durable()|;
    }
  }

  lemma NothingReached(k: Settings)
    ensures Reaches(k, [], map[]) && ViewsFit(map[])
  {}

  /** In every state of every run, whatever the clock does and whichever records are refused, the files hold exactly the
      records the calls took, on disk at least those of the last flush; they are in time order and in their buckets; and
      who has a writer is what the calls say. */
  lemma {:induction false} RunsKeepTheLog(lib: Library, k: Settings, ops: seq<Op>, states: seq<State>, i: nat)
      returns (g: Shelves)
    requires Lawful(lib) && IsRun(lib, k, ops, states) && i < |states| && |ops| + 1 < U64_END
    ensures Sound(lib, k, states[i], g, BookOf(k, ops[..i])) && Usable(states[i]) && Reaches(k, ops[..i], g)
    ensures states[i].active.Keys == Writers(k, ops[..i])
    decreases i
  {
    hide Sound, Step, Usable, BookStep, BucketOf, Lawful, Reaches, DiskGrows, WritersStep;
    if i == 0 {
      g := map[];
      NewIsSound(lib, k);
      NothingReached(k);
      assert NEW.active.Keys == {};
    } else {
      var g0 := RunsKeepTheLog(lib, k, ops, states, i - 1);
      assert ops[..i] == ops[..i - 1] + [ops[i - 1]];
      assert ops[..i][..i - 1] == ops[..i - 1];
      var b := BookOf(k, ops[..i - 1]);
      forall d: Dir ensures |b.In(d)| + 1 < U64_END { BooksAreSmall(k, ops[..i - 1], d); }
      assert Step(lib, k, states[i - 1], ops[i - 1]) == Some(states[i]);
      g := StepFiles(lib, k, states[i - 1], g0, b, ops[i - 1]);
      FloorHolds(k, ops[..i - 1], ops[i - 1], g0, g);
    }
    SoundIs(lib, k, states[i], g, BookOf(k, ops[..i]));
  }

  lemma {:induction false} SoundIs(lib: Library, k: Settings, s: State, g: Shelves, b: Book)
    requires Sound(lib, k, s, g, b)
    ensures Usable(s) && Orderly(k, b) && s.lastTs == b.last
  {
    hide ShelvesTell, Usable, Orderly, BucketOf;
    SoundIsUsable(lib, s, g);
  }
}
