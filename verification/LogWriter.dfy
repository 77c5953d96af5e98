/** The log as one object: its methods update its directories, its writers and its kept readers in place. */
module LogWriter {
  import opened Bytes
  import opened Foreign
  import opened Format
  import opened Recovery
  import opened Reader
  import opened Shelf
  import opened L = Log
  import LogReads
  import Body
  import PartReader
  import W = Writer

  /** Sealing one more writer. */
  lemma {:induction false} SealOneMore(lib: Library, k: Settings, s: State, done: set<Dir>, d: Dir)
    requires Usable(s) && d !in done && d in s.active
    ensures var s' := SealParts(lib, k, s, done);
      SealParts(lib, k, s, done + {d})
      == s'.(sealed := s'.sealed[d := SealedIn(s', d) + [FilesOf(W.Sealed(lib, k.writer, s.active[d]).1)]], active := s'.active - {d})
  {
    hide W.Sealed, W.Usable;
    var (a, s') := (SealParts(lib, k, s, done + {d}), SealParts(lib, k, s, done));
    var b := s'.sealed[d := SealedIn(s', d) + [FilesOf(W.Sealed(lib, k.writer, s.active[d]).1)]];
    assert a.sealed.Keys == b.Keys;
    assert a.active == s'.active - {d};
  }

  lemma SealNone(lib: Library, k: Settings, s: State)
    requires Usable(s)
    ensures SealParts(lib, k, s, {}) == s
  {
    hide W.Sealed, W.Usable;
  }

  lemma SealedIsUsable(lib: Library, k: Settings, s: State, stale: set<Dir>)
    requires Usable(s)
    ensures Usable(SealParts(lib, k, s, stale))
  {
    hide W.Sealed, W.Usable;
  }

  lemma NextOffsetUnfolds(lib: Library, sealed: seq<Files>, i: nat)
    requires i < |sealed|
    ensures NextOffset(lib, sealed[..i + 1])
         == var (n, end) := (NextOffset(lib, sealed[..i]), Ending(lib, sealed[i])); if end.Some? && end.value > n then end.value else n
  {
    hide Ending;
    assert sealed[..i + 1][..i] == sealed[..i];
  }

  function Buckets(s: State): set<u64> { set d | d in s.sealed.Keys + s.active.Keys :: d.bucket }

  function Without(sealed: map<Dir, seq<Files>>, buckets: set<u64>): map<Dir, seq<Files>> {
    map d | d in sealed && d.bucket !in buckets :: sealed[d]
  }

  lemma NoneDroppedYet(s: State, cutoff: u64)
    ensures Idle(s, cutoff) <= Buckets(s) && Idle(s, cutoff) - Buckets(s) == {} && Without(s.sealed, {}) == s.sealed
  {}

  lemma IdleOrNot(s: State, cutoff: u64, b: u64)
    requires b in Buckets(s)
    ensures b in Idle(s, cutoff) <==> b < cutoff && forall a :: a in s.active ==> a.bucket != b
  {}

  lemma WithoutOneMore(sealed: map<Dir, seq<Files>>, buckets: set<u64>, b: u64)
    ensures Without(Without(sealed, buckets), {b}) == Without(sealed, buckets + {b})
  {}

  class Log {
    const lib: Library
    const k: Settings
    var sealed: map<Dir, seq<Files>>
    var active: map<Dir, W.State>
    var lastTs: map<Stream, u64>
    var readers: LogReads.Cache

    function Now(): State
      reads `sealed, `active, `lastTs
    {
      State(sealed, active, lastTs)
    }

    constructor (lib: Library, k: Settings)
      ensures this.lib == lib && this.k == k && Now() == NEW && readers == map[]
    {
      this.lib, this.k := lib, k;
      sealed, active, lastTs, readers := map[], map[], map[], map[];
    }

    /** Append one body when the clock reads `raw`: its offset. A refused record has still made a part ready, and may
        have grown the part's dictionary. */
    method Append(raw: u64, now: u64, body: Body.Body) returns (r: Result<nat, Error>)
      requires Usable(Now())
      modifies `sealed, `active, `lastTs
      ensures var told := L.Append(lib, k, old(Now()), raw, now, body);
        r == told.0 && (told.1.Some? ==> Now() == told.1.value)
    {
      hide W.Appended, W.Refuses, L.EnsurePart, BucketOf, W.Usable;
      var stream := StreamOf(k, body);
      if stream.None? {
        return Err(MissingPartition);
      }
      var ts := Clamped(lastTs, stream.value, raw);
      var d := Dir(BucketOf(k, ts), stream.value);
      var ready := EnsurePart(d, ts, now);
      if !ready {
        return Err(Overflow);
      }
      var (res, w) := W.Appended(lib, k.writer, active[d], ts, body);
      active := active[d := w];
      if res.Err? {
        return Err(res.error);
      }
      lastTs := lastTs[stream.value := ts];
      return Ok(res.value);
    }

    /** See to it that there is a part to append to. */
    method EnsurePart(d: Dir, ts: u64, now: u64) returns (ok: bool)
      requires Usable(Now())
      modifies `sealed, `active
      ensures var told := L.EnsurePart(lib, k, old(Now()), d, ts, now);
        ok == told.Some? && (ok ==> Now() == told.value)
    {
      hide W.Usable, SealParts, SealFits, NextOffset, W.Created;
      ok := SealPartsOlderThan(d.bucket, Some(d.stream));
      if !ok {
        return;
      }
      SealedIsUsable(lib, k, old(Now()), Stale(old(Now()), d.bucket, Some(d.stream)));
      if d in active && active[d].fileOff + |active[d].block| < k.partBytes {
        return true;
      }
      ok := SealSome({d});
      if !ok {
        return;
      }
      var first := StreamNextOffset(d);
      var header := PartHeader(k.precision, d.bucket, ts, Low64(first), now);
      active := active[d := W.Created(header, k.withDict)];
    }

    method SealPartsOlderThan(cutoff: u64, only: Option<Stream>) returns (ok: bool)
      requires Usable(Now())
      modifies `sealed, `active
      ensures var stale := Stale(old(Now()), cutoff, only);
        ok == SealFits(lib, k, old(Now()), stale) && (ok ==> Now() == SealParts(lib, k, old(Now()), stale))
    {
      hide W.Usable, SealParts, SealFits;
      var stale := set d | d in active && d.bucket < cutoff && (only.None? || only.value == d.stream);
      ok := SealSome(stale);
    }

    /** Seal the writers of `stale` that are open. */
    method SealSome(stale: set<Dir>) returns (ok: bool)
      requires Usable(Now())
      modifies `sealed, `active
      ensures ok == SealFits(lib, k, old(Now()), stale) && (ok ==> Now() == SealParts(lib, k, old(Now()), stale))
    {
      hide W.Sealed, W.Usable, SealParts;
      ghost var s := Now();
      var todo := stale * active.Keys;
      SealNone(lib, k, s);
      OnlyOpenOnes(lib, k, s, stale);
      assert stale * s.active.Keys - todo == {};
      while todo != {}
        invariant todo <= stale * s.active.Keys && Now() == SealParts(lib, k, s, stale * s.active.Keys - todo)
        invariant SealFits(lib, k, s, stale * s.active.Keys - todo)
        decreases |todo|
      {
        var d :| d in todo;
        OpenStays(lib, k, s, stale * s.active.Keys - todo, d);
        SealOneMore(lib, k, s, stale * s.active.Keys - todo, d);
        assert stale * s.active.Keys - (todo - {d}) == (stale * s.active.Keys - todo) + {d};
        ok := SealOne(d);
        if !ok {
          return;
        }
        todo := todo - {d};
      }
      assert stale * s.active.Keys - {} == stale * s.active.Keys;
      return true;
    }

    method SealOne(d: Dir) returns (ok: bool)
      requires d in active && W.Usable(active[d])
      modifies `sealed, `active
      ensures ok == W.Sealed(lib, k.writer, old(active[d])).0.Ok?
      ensures ok ==> Now() == old(Now()).(
                sealed := old(sealed)[d := SealedIn(old(Now()), d) + [FilesOf(W.Sealed(lib, k.writer, old(active[d])).1)]],
                active := old(active) - {d})
    {
      hide W.Sealed, W.Usable;
      var (r, w) := W.Sealed(lib, k.writer, active[d]);
      if r.Err? {
        return false;
      }
      sealed := sealed[d := SealedIn(Now(), d) + [FilesOf(w)]];
      active := active - {d};
      return true;
    }

    /** Where the directory's offsets continue: the highest end its parts report. */
    method StreamNextOffset(d: Dir) returns (end: nat)
      ensures end == NextOffset(lib, SealedIn(Now(), d))
    {
      hide PartReader.Open, PartReader.OffsetSpan;
      var parts := SealedIn(Now(), d);
      end := 0;
      for i := 0 to |parts|
        invariant end == NextOffset(lib, parts[..i])
      {
        NextOffsetUnfolds(lib, parts, i);
        var reader := PartReader.Open(lib, parts[i].file, Some(parts[i].index), parts[i].dictFile, true);
        if reader.Ok? {
          var (_, high) := PartReader.OffsetSpan(reader.value);
          end := if high > end then high else end;
        }
      }
      assert parts[..|parts|] == parts;
    }

    /** Write every buffered block. */
    method Flush() returns (ok: bool)
      requires Usable(Now())
      modifies `active
      ensures ok == FlushFits(lib, k, old(Now())) && (ok ==> Now() == L.Flush(lib, k, old(Now())))
    {
      hide W.Flushed, W.Usable;
      ghost var s := Now();
      var todo := active.Keys;
      while todo != {}
        invariant todo <= s.active.Keys && active.Keys == s.active.Keys
        invariant forall d :: d in s.active && d !in todo ==> W.Flushed(lib, k.writer, s.active[d]).0.Ok?
        invariant forall d :: d in s.active ==> active[d] == if d in todo then s.active[d] else W.Flushed(lib, k.writer, s.active[d]).1
        decreases |todo|
      {
        var d :| d in todo;
        var (r, w) := W.Flushed(lib, k.writer, active[d]);
        if r.Err? {
          return false;
        }
        active := active[d := w];
        todo := todo - {d};
      }
      return true;
    }

    /** Close every open part; the next append opens new ones. */
    method Seal() returns (ok: bool)
      requires Usable(Now())
      modifies this
      ensures readers == map[]
      ensures ok == SealFits(lib, k, old(Now()), old(active.Keys))
      ensures ok ==> Now() == SealParts(lib, k, old(Now()), old(active.Keys))
    {
      hide W.Usable, SealParts, SealFits;
      readers := map[];
      ok := SealSome(active.Keys);
    }

    /** Drop every bucket before the one `ts` falls in. */
    method RetainBefore(ts: u64) returns (ok: bool, dropped: set<u64>)
      requires Usable(Now())
      modifies this
      ensures ok == SealFits(lib, k, old(Now()), Stale(old(Now()), BucketOf(k, ts), None))
      ensures ok ==> readers == map[] && (dropped, Now()) == Retain(lib, k, old(Now()), ts)
    {
      hide W.Usable, SealParts, SealFits, BucketOf, Idle, Stale;
      dropped := {};
      var cutoff := BucketOf(k, ts);
      ok := SealPartsOlderThan(cutoff, None);
      if ok {
        readers := map[];
        dropped := DropIdle(cutoff);
      }
    }

    /** Remove the directories of every bucket before `cutoff` that has no writer. */
    method DropIdle(cutoff: u64) returns (dropped: set<u64>)
      modifies `sealed
      ensures dropped == Idle(old(Now()), cutoff)
      ensures sealed == Without(old(sealed), dropped)
    {
      hide Idle;
      ghost var s := Now();
      dropped := {};
      var todo := Buckets(Now());
      NoneDroppedYet(s, cutoff);
      while todo != {}
        invariant todo <= Buckets(s) && active == s.active && dropped == Idle(s, cutoff) - todo && sealed == Without(s.sealed, dropped)
        decreases |todo|
      {
        var b: u64 :| b in todo;
        IdleOrNot(s, cutoff, b);
        if b < cutoff && forall a :: a in active ==> a.bucket != b {
          WithoutOneMore(s.sealed, dropped, b);
          sealed := Without(sealed, {b});
          dropped := dropped + {b};
        }
        todo := todo - {b};
      }
    }

    /** A reader for one part, kept from before when the file has not grown. */
    method ReaderFor(item: LogReads.Item) returns (r: Result<Reader, Error>)
      modifies `readers
      ensures (r, readers) == LogReads.ReaderFor(lib, item, old(readers))
    {
      hide PartReader.Open;
      var f := item.files;
      if item.path in readers && readers[item.path].length == |f.file| {
        return Ok(readers[item.path].reader);
      }
      r := PartReader.Open(lib, f.file, Some(f.index), f.dictFile, !item.path.open);
      if r.Ok? {
        if |readers| >= LogReads.CACHE_LIMIT {
          readers := map[];
        }
        readers := readers[item.path := LogReads.Cached(|f.file|, r.value)];
      }
    }

    /** Read up to `max` records of one stream or of all. */
    method ReadStreams(dirs: seq<Dir>, which: LogReads.Which, sel: Select, max: nat)
        returns (r: Result<seq<Hit>, Error>)
      modifies `readers
      ensures (r, readers) == LogReads.ReadStreams(lib, Now(), dirs, which, sel, max, old(readers))
    {
      hide LogReads.ReadItems, LogReads.Sorted, LogReads.AllItems, LogReads.InTime;
      r := ReadItems(LogReads.Sorted(LogReads.AllItems(Now(), dirs)), which, sel, max);
      if r.Ok? && which.Every? {
        r := Ok(LogReads.InTime(r.value));
      }
    }

    /** Part after part, until there are `max` rows. */
    method ReadItems(items: seq<LogReads.Item>, which: LogReads.Which, sel: Select, max: nat)
        returns (r: Result<seq<Hit>, Error>)
      modifies `readers
      ensures (r, readers) == LogReads.ReadItems(lib, items, which, sel, max, old(readers), [])
    {
      hide LogReads.ReaderFor, LogReads.Skips, LogReads.Narrowed, Read;
      var rows: seq<Hit> := [];
      var i := 0;
      assert items[0..] == items;
      while i < |items|
        invariant i <= |items|
        invariant LogReads.ReadItems(lib, items, which, sel, max, old(readers), [])
               == LogReads.ReadItems(lib, items[i..], which, sel, max, readers, rows)
      {
        if |rows| >= max {
          return Ok(rows);
        }
        assert items[i..][1..] == items[i + 1..];
        if which.Covers(items[i]) {
          var reader := ReaderFor(items[i]);
          if reader.Err? {
            return Err(reader.error);
          }
          if !LogReads.Skips(reader.value, sel) {
            var read := Read(lib, reader.value.(file := items[i].files.file), LogReads.Narrowed(reader.value, sel), max, rows);
            if read.Err? {
              return Err(read.error);
            }
            rows := read.value;
          }
        }
        i := i + 1;
      }
      return Ok(rows);
    }
  }

  lemma OnlyOpenOnes(lib: Library, k: Settings, s: State, stale: set<Dir>)
    requires Usable(s)
    ensures SealFits(lib, k, s, stale) <==> SealFits(lib, k, s, stale * s.active.Keys)
    ensures SealParts(lib, k, s, stale) == SealParts(lib, k, s, stale * s.active.Keys)
  {
    hide W.Sealed, W.Usable;
    assert s.active - stale == s.active - (stale * s.active.Keys);
    assert stale * s.active.Keys == stale * s.active.Keys * s.active.Keys;
  }

  lemma OpenStays(lib: Library, k: Settings, s: State, done: set<Dir>, d: Dir)
    requires Usable(s) && d !in done && d in s.active
    ensures var s' := SealParts(lib, k, s, done); d in s'.active && s'.active[d] == s.active[d]
    ensures W.Usable(s.active[d])
  {
    hide W.Sealed, W.Usable;
  }
}
