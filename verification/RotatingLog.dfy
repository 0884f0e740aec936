/** The rotating log writer. Cleanup of old files is off (MaxBackups <= 0). */
module RotatingLog {
  import opened Basics
  import opened LogFiles
  import opened LogSpec

  class RotatingWriter {
    const cfg: Config
    var fs: Directory
    var written: int
    var hour: Hour
    ghost var shelves: map<string, Shelf>   // of the stems with files

    ghost predicate StemOk(st: string)
      reads this
      requires st in shelves
    {
      IsStem(cfg, st) && CurrentName(st) in fs && Shelved(fs, st, shelves[st])
    }

    ghost predicate StemAbsent(st: string)
      reads this
    {
      IsStem(cfg, st) && st !in shelves ==> Absent(fs, st)
    }

    /** The stem in use. */
    function Using(): string
      reads this
    {
      Stem(cfg, hour)
    }

    ghost predicate Valid()
      reads this
    {
      && (forall st {:trigger StemOk(st)} :: st in shelves ==> StemOk(st))
      && (forall st {:trigger StemAbsent(st)} :: StemAbsent(st))
      && Using() in shelves
      && written == Size(shelves[Using()].current)
    }

    ghost function ShelfAt(st: string): Shelf
      reads this`shelves
    {
      if st in shelves then shelves[st] else EMPTY
    }

    lemma ShelfIsThere(st: string)
      requires Valid() && IsStem(cfg, st)
      ensures Shelved(fs, st, ShelfAt(st))
    {
      assert StemAbsent(st) && (st in shelves ==> StemOk(st));
    }

    /** What the files of a stem hold, read off its shelf. */
    lemma ShelfReads(st: string, sh: Shelf, k: nat, bytes: seq<byte>)
      requires Valid() && IsStem(cfg, st) && ShelfAt(st) == sh && k == |sh.archives| && Bytes(Held(sh)) == bytes
      ensures Stacked(fs, st, k) && LogBytes(fs, st, k) == bytes
    {
      ShelfIsThere(st);
      ShelvedBytes(fs, st, sh);
    }

    /** Opening for append creates the file if it is missing. */
    method OpenLocked(now: Hour)
      modifies this`fs, this`written, this`hour
      ensures hour == now
      ensures var name := CurrentName(Stem(cfg, now));
              && fs == (if name in old(fs) then old(fs) else old(fs)[name := []])
              && written == Size(At(fs, name))
    {
      var name := CurrentName(Stem(cfg, now));
      if name !in fs {
        fs := fs[name := []];
      }
      written := Size(fs[name]);
      hour := now;
    }

    /** Counts the archives, up to the probing limit. */
    method ProbeMaxSeq(st: string, ghost k: nat) returns (maxSeq: nat)
      requires Stacked(fs, st, k)
      ensures maxSeq == Min(k, PROBE_LIMIT)
    {
      maxSeq := 0;
      while true
        invariant maxSeq <= k && maxSeq < PROBE_LIMIT
        decreases PROBE_LIMIT - maxSeq
      {
        if SeqName(st, maxSeq + 1) !in fs {
          break;
        }
        maxSeq := maxSeq + 1;
        if maxSeq > 9999 {
          break;
        }
      }
    }

    method ShiftAndArchiveLocked()
      requires Valid()
      modifies this`fs
      ensures fs == Archive(old(fs), Using(), Min(|shelves[Using()].archives|, PROBE_LIMIT))
    {
      var st := Using();
      assert StemOk(st);
      var maxSeq := ProbeMaxSeq(st, |shelves[st].archives|);
      RenameFrom(st, maxSeq);
      fs := Rename(fs, CurrentName(st), SeqName(st, 1));
    }

    method RenameFrom(st: string, maxSeq: nat)
      modifies this`fs
      ensures fs == RenameDown(old(fs), st, maxSeq)
    {
      ghost var goal := RenameDown(fs, st, maxSeq);
      var i := maxSeq;
      while i >= 1
        invariant 0 <= i <= maxSeq
        invariant RenameDown(fs, st, i) == goal
      {
        var from, to := SeqName(st, i), SeqName(st, i + 1);
        RenameDownStep(fs, st, i);
        fs := Rename(fs, from, to);
        i := i - 1;
      }
    }

    /** An operation on one stem leaves the other stems' files alone. */
    twostate lemma OthersKept(st: string)
      requires old(Valid()) && IsStem(cfg, st) && ElsewhereSame(old(fs), fs, st)
      requires st in shelves && shelves == old(shelves)[st := shelves[st]]
      requires CurrentName(st) in fs && Shelved(fs, st, shelves[st])
      ensures forall x {:trigger StemOk(x)} :: x in shelves ==> StemOk(x)
      ensures forall x {:trigger StemAbsent(x)} :: StemAbsent(x)
    {
      forall x | x in shelves ensures StemOk(x) {
        if x != st {
          assert old(StemOk(x));
          OtherStem(cfg, old(fs), fs, st, x);
        }
      }
      forall x ensures StemAbsent(x) {
        if IsStem(cfg, x) && x !in shelves {
          assert old(StemAbsent(x));
          OtherStem(cfg, old(fs), fs, st, x);
        }
      }
    }

    constructor (cfg: Config, now: Hour)
      ensures Valid() && this.cfg == cfg && hour == now && AllSized(cfg, fs)
      ensures forall st {:trigger ShelfAt(st)} :: ShelfAt(st) == EMPTY
    {
      this.cfg := cfg;
      fs := map[CurrentName(Stem(cfg, now)) := []];
      written, hour := 0, now;
      shelves := map[Stem(cfg, now) := EMPTY];
      new;
      var st := Stem(cfg, now);
      StemOfHour(cfg, now, now);
      forall i: nat ensures SeqName(st, i) !in fs {
        NamesDistinct(st, i, i);
      }
      forall x ensures StemAbsent(x) {
        if IsStem(cfg, x) && x != st {
          OwnNames(st, 0);
          forall i: nat ensures SeqName(x, i) !in fs && CurrentName(x) !in fs {
            OwnNames(x, i);
          }
        }
      }
      assert StemOk(st);
      assert SizedAt(cfg, fs, CurrentName(st));
    }

    /** Rotation within a stem: archive the current file and start an empty one. */
    method RotateSameStem(now: Hour)
      requires Valid() && Stem(cfg, now) == Using()
      modifies this
      ensures Valid() && hour == now
      ensures var st := Stem(cfg, now);
              && st in old(shelves) && shelves == old(shelves)[st := RotateShelf(old(shelves[st]))]
              && fs == Archive(old(fs), st, Min(|old(shelves[st]).archives|, PROBE_LIMIT))[CurrentName(st) := []]
      ensures old(AllSized(cfg, fs)) ==> AllSized(cfg, fs)
    {
      ghost var st := Using();
      ghost var sh := shelves[st];
      assert StemOk(st);
      ArchivingRotates(fs, st, sh);
      if AllSized(cfg, fs) {
        ArchiveKeepsSized(cfg, fs, st, Min(|sh.archives|, PROBE_LIMIT));
      }
      ShiftAndArchiveLocked();
      OpenLocked(now);
      shelves := shelves[st := RotateShelf(sh)];
      OthersKept(st);
    }

    /** Rotation into another hour: its file is opened, the old one stays as it is. */
    method RotateToHour(now: Hour)
      requires Valid() && Stem(cfg, now) != Using()
      modifies this
      ensures Valid() && hour == now
      ensures shelves == old(shelves)[Stem(cfg, now) := old(ShelfAt(Stem(cfg, now)))]
      ensures old(AllSized(cfg, fs)) ==> AllSized(cfg, fs)
    {
      ghost var st := Stem(cfg, now);
      ghost var sh := ShelfAt(st);
      StemOfHour(cfg, now, now);
      ShelfIsThere(st);
      assert StemAbsent(st) && (st in shelves ==> StemOk(st));
      if AllSized(cfg, fs) {
        UpdateSized(cfg, fs, CurrentName(st), []);
      }
      CurrentChange(fs, st, sh, []);
      OpenLocked(now);
      shelves := shelves[st := sh];
      assert CurrentName(st) in old(fs) ==> forall n: string :: SameFile(old(fs), fs, n);
      OthersKept(st);
    }

    predicate NeedRotate(now: Hour, writeLen: nat)
      reads this
    {
      || (cfg.rotateByHour && now != hour)
      || (cfg.maxSizeMB > 0 && written + writeLen > Limit(cfg))
    }

    /** The operation changes the shelf of one stem, and no other. */
    twostate predicate Changes(st: string, sh: Shelf)
      reads this
    {
      ShelfAt(st) == sh && forall x {:trigger ShelfAt(x)} :: x != st ==> ShelfAt(x) == old(ShelfAt(x))
    }

    method RotateLocked(now: Hour)
      requires Valid()
      modifies this
      ensures Valid() && hour == now
      ensures var st := Stem(cfg, now);
              && Changes(st, if st == old(Using()) then RotateShelf(old(ShelfAt(st))) else old(ShelfAt(st)))
              && (st == old(Using()) ==>
                    fs == Archive(old(fs), st, Min(|old(ShelfAt(st)).archives|, PROBE_LIMIT))[CurrentName(st) := []])
      ensures old(AllSized(cfg, fs)) ==> AllSized(cfg, fs)
    {
      var sameHour := cfg.rotateByHour && now == hour;
      StemOfHour(cfg, now, hour);
      if sameHour || !cfg.rotateByHour {
        RotateSameStem(now);
      } else {
        RotateToHour(now);
      }
    }

    /** Appends to the current file. */
    method Append(p: seq<byte>)
      requires Valid()
      modifies this`fs, this`written, this`shelves
      ensures Valid()
      ensures var sh := old(ShelfAt(Using())); Changes(Using(), sh.(current := sh.current + [p]))
      ensures old(AllSized(cfg, fs)) ==>
                (AllSized(cfg, fs) <==> FileSized(cfg, old(ShelfAt(Using())).current + [p]))
    {
      var st := Using();
      var name := CurrentName(st);
      assert StemOk(st);
      ghost var sh := shelves[st];
      CurrentChange(fs, st, sh, fs[name] + [p]);
      SizeAppend(fs[name], p);
      if AllSized(cfg, fs) {
        UpdateSized(cfg, fs, name, fs[name] + [p]);
      }
      fs := fs[name := fs[name] + [p]];
      written := written + |p|;
      shelves := shelves[st := sh.(current := sh.current + [p])];
      OthersKept(st);
    }

    /** A write that returns to an hour whose file is not empty is not checked against the
        limit, since the hour change already asked for the rotation. */
    ghost predicate OverfullReopen(now: Hour, p: seq<byte>)
      reads this
    {
      var f := ShelfAt(Stem(cfg, now)).current;
      cfg.maxSizeMB > 0 && cfg.rotateByHour && now != hour && f != [] && Size(f) + |p| > Limit(cfg)
    }

    /** Write: the bytes go to the end of this hour's log and nowhere else. Files stay within
        the limit, or hold one oversized write, exactly unless an overfull file is reopened. */
    method Write(p: seq<byte>, now: Hour)
      requires Valid()
      modifies this
      ensures Valid() && Using() == Stem(cfg, now)
      ensures var st := Stem(cfg, now);
              && Changes(st, LogSpec.Perform(cfg, old(ShelfAt(st)), Log(p, now), st == old(Using())))
              && LoggedAs(cfg, old(ShelfAt(st)), ShelfAt(st), p, st == old(Using()))
      ensures old(AllSized(cfg, fs)) ==> (AllSized(cfg, fs) <==> !old(OverfullReopen(now, p)))
    {
      ghost var st := Stem(cfg, now);
      ghost var f, inUse, rotates := ShelfAt(st).current, st == Using(), NeedRotate(now, |p|);
      ghost var found := if inUse && rotates then [] else f;
      StemOfHour(cfg, now, hour);
      AppendedSize(cfg, f, p, inUse, rotates);
      ShelfIsThere(st);
      LogMeaning(cfg, ShelfAt(st), p, now, inUse);
      assert FileSized(cfg, found + [p]) <==> !OverfullReopen(now, p);
      RotateIfNeeded(p, now);
      assert ShelfAt(st).current == found;
      Append(p);
    }

    method RotateIfNeeded(p: seq<byte>, now: Hour)
      requires Valid()
      modifies this
      ensures Valid() && Using() == Stem(cfg, now)
      ensures var st := Stem(cfg, now);
              var sh, inUse := old(ShelfAt(st)), st == old(Using());
              && Changes(st, if Rotates(cfg, sh, Log(p, now), inUse) then RotateShelf(sh) else sh)
              && (Rotates(cfg, sh, Log(p, now), inUse) <==> inUse && old(NeedRotate(now, |p|)))
      ensures old(AllSized(cfg, fs)) ==> AllSized(cfg, fs)
    {
      StemOfHour(cfg, now, hour);
      if NeedRotate(now, |p|) {
        RotateLocked(now);
      }
    }

    /** Rotation by hand. */
    method Rotate(now: Hour)
      requires Valid()
      modifies this
      ensures Valid() && hour == now
      ensures var st := Stem(cfg, now);
              && Changes(st, LogSpec.Perform(cfg, old(ShelfAt(st)), Event.Rotate(now), st == old(Using())))
              && (if st == old(Using()) then RotatedAs(old(ShelfAt(st)), ShelfAt(st)) else ShelfAt(st) == old(ShelfAt(st)))
              && (st == old(Using()) ==>
                    fs == Archive(old(fs), st, Min(|old(ShelfAt(st)).archives|, PROBE_LIMIT))[CurrentName(st) := []])
      ensures old(AllSized(cfg, fs)) ==> AllSized(cfg, fs)
    {
      StemOfHour(cfg, now, now);
      ShelfIsThere(Stem(cfg, now));
      RotateMeaning(ShelfAt(Stem(cfg, now)));
      RotateLocked(now);
    }

    method Perform(e: Event)
      requires Valid()
      modifies this
      ensures Valid() && Using() == Stem(cfg, e.now)
      ensures var st := Stem(cfg, e.now);
              ShelfAt(st) == LogSpec.Perform(cfg, old(ShelfAt(st)), e, st == old(Using()))
      ensures forall x {:trigger ShelfAt(x)} :: x != Stem(cfg, e.now) ==> ShelfAt(x) == old(ShelfAt(x))
      ensures old(AllSized(cfg, fs)) && old(SizeSafe(e.now)) ==> AllSized(cfg, fs)
    {
      StemOfHour(cfg, e.now, hour);
      match e {
        case Log(p, now) => Write(p, now);
        case Rotate(now) => Rotate(now);
      }
    }

    /** The hour is the one in use, or its current file is empty. */
    ghost predicate SizeSafe(now: Hour)
      reads this
    {
      Stem(cfg, now) == Using() || ShelfAt(Stem(cfg, now)).current == []
    }
  }

  // ----- Runs -----

  /** The writer's shelves are those of the first `n` events. */
  ghost predicate Follows(w: RotatingWriter, start: Hour, events: seq<Event>, n: nat)
    requires n <= |events|
    reads w
  {
    && w.Using() == StemAt(w.cfg, start, events, n)
    && forall st {:trigger w.ShelfAt(st)} :: w.ShelfAt(st) == ShelfAfter(w.cfg, start, events, n, st)
  }

  lemma FollowsAtFirst(w: RotatingWriter, start: Hour, events: seq<Event>)
    requires w.hour == start && forall st {:trigger w.ShelfAt(st)} :: w.ShelfAt(st) == EMPTY
    ensures Follows(w, start, events, 0)
  {
  }

  method Step(w: RotatingWriter, start: Hour, events: seq<Event>, i: nat)
    requires i < |events| && w.Valid() && Follows(w, start, events, i)
    modifies w
    ensures w.Valid() && Follows(w, start, events, i + 1)
    ensures old(AllSized(w.cfg, w.fs)) && MovesOn(w.cfg, start, events, i) ==> AllSized(w.cfg, w.fs)
  {
    ghost var st := StemAt(w.cfg, start, events, i + 1);
    if MovesOn(w.cfg, start, events, i) && st != w.Using() {
      UnseenIsEmpty(w.cfg, start, events, i, st);
      assert w.ShelfAt(st) == EMPTY;
    }
    w.Perform(events[i]);
  }

  /** What the files of a stem are after a run. */
  ghost predicate Kept(cfg: Config, start: Hour, events: seq<Event>, fs: Directory, st: string) {
    var n := |events|;
    var sh := ShelfAfter(cfg, start, events, n, st);
    var held, written := LogBytes(fs, st, |sh.archives|), Bytes(WritesOf(cfg, events, n, st));
    && Shelved(fs, st, sh)
    && written == Bytes(Lost(cfg, start, events, n, st)) + held
    && (held == written <==> !LosesBytes(cfg, start, events, n, st))
    && (|sh.archives| <= PROBE_LIMIT ==> held == written)
  }

  lemma ShelvedIsKept(cfg: Config, start: Hour, events: seq<Event>, fs: Directory, st: string)
    requires Shelved(fs, st, ShelfAfter(cfg, start, events, |events|, st))
    ensures Kept(cfg, start, events, fs, st)
  {
    ShelvedBytes(fs, st, ShelfAfter(cfg, start, events, |events|, st));
    HeldUnlessOverwritten(cfg, start, events, |events|, st);
    NothingLostBelowLimit(cfg, start, events, |events|, st);
  }

  lemma AllKept(w: RotatingWriter, start: Hour, events: seq<Event>)
    requires w.Valid() && Follows(w, start, events, |events|)
    ensures forall st {:trigger Kept(w.cfg, start, events, w.fs, st)} ::
              IsStem(w.cfg, st) ==> Kept(w.cfg, start, events, w.fs, st)
  {
    forall st | IsStem(w.cfg, st) ensures Kept(w.cfg, start, events, w.fs, st) {
      w.ShelfIsThere(st);
      ShelvedIsKept(w.cfg, start, events, w.fs, st);
    }
  }

  /** Every run of writes and manual rotations on an empty directory, under any clock. For
      each hour - or for the one log in non-hourly mode - the archives are numbered without a
      gap; they and the current file are the files the events give; and from the highest
      number down and then the current file they hold the end of the bytes written in that
      hour, in order: all of them exactly unless some rotation overwrote a non-empty archive,
      which takes more than 10000 archives. If no hour comes back once it has been left, every
      file is within the size limit or holds exactly one oversized write. */
  method Run(cfg: Config, start: Hour, events: seq<Event>) returns (fs: Directory)
    ensures forall st {:trigger Kept(cfg, start, events, fs, st)} :: IsStem(cfg, st) ==> Kept(cfg, start, events, fs, st)
    ensures NoHourReturns(cfg, start, events) ==> AllSized(cfg, fs)
  {
    var w := new RotatingWriter(cfg, start);
    FollowsAtFirst(w, start, events);
    var i := 0;
    while i < |events|
      invariant 0 <= i <= |events| && fresh(w) && w.Valid() && w.cfg == cfg
      invariant Follows(w, start, events, i)
      invariant NoHourReturns(cfg, start, events) ==> AllSized(cfg, w.fs)
    {
      assert NoHourReturns(cfg, start, events) ==> MovesOn(cfg, start, events, i);
      Step(w, start, events, i);
      i := i + 1;
    }
    AllKept(w, start, events);
    fs := w.fs;
  }

  /** A byte logged in one hour and a byte in another. */
  method LogTwoHours(cfg: Config, a: Hour, b: Hour) returns (w: RotatingWriter)
    requires cfg.maxSizeMB > 0 && cfg.rotateByHour && a != b
    ensures fresh(w) && w.Valid() && w.cfg == cfg && AllSized(cfg, w.fs)
    ensures w.ShelfAt(Stem(cfg, a)).current == [[0]] && w.hour != a
  {
    w := new RotatingWriter(cfg, a);
    StemOfHour(cfg, a, b);
    assert w.ShelfAt(Stem(cfg, a)) == EMPTY && w.ShelfAt(Stem(cfg, b)) == EMPTY;
    w.Write([0], a);
    assert w.ShelfAt(Stem(cfg, a)).current == [] + [[0]] == [[0]];
    w.Write([0], b);
  }

  /** The size promise can fail: with a limit of one megabyte, a byte logged in one hour, one
      in another, and then a megabyte in the first hour again. */
  method ReopenedFileOverflows(a: Hour, b: Hour, p: seq<byte>) returns (w: RotatingWriter)
    requires a != b && |p| == 1024 * 1024
    ensures w.Valid() && !AllSized(w.cfg, w.fs)
  {
    w := LogTwoHours(Config("app", 1, true), a, b);
    SizeAppend([], [0]);
    assert [] + [[0]] == [[0]];
    w.Write(p, a);
  }

  /** Empty files. */
  function Blanks(n: nat): seq<File> {
    seq(n, _ => [])
  }

  lemma {:induction false} BlanksAreFlat(n: nat)
    ensures Flat(Blanks(n)) == []
  {
    if n > 0 {
      BlanksAreFlat(n - 1);
      assert Blanks(n)[1..] == Blanks(n - 1);
    }
  }

  /** The only write in the oldest archive, and `n` empty archives after it. */
  function Buried(p: seq<byte>, n: nat): Shelf {
    Shelf([[p]] + Blanks(n), [])
  }

  lemma BuriedDeeper(p: seq<byte>, n: nat)
    ensures RotateShelf(Shelf([], [p])) == Buried(p, 0)
    ensures n < PROBE_LIMIT ==> RotateShelf(Buried(p, n)) == Buried(p, n + 1)
  {
    assert [] + [[p]] == [[p]] + Blanks(0);
    assert [[p]] + Blanks(n) + [[]] == [[p]] + Blanks(n + 1);
  }

  /** The write with as many empty archives after it as there can be. */
  function Deepest(p: seq<byte>): (sh: Shelf)
    ensures |sh.archives| == PROBE_LIMIT + 1
  {
    Buried(p, PROBE_LIMIT)
  }

  lemma DeepestHolds(p: seq<byte>, n: nat)
    ensures Bytes(Held(Buried(p, n))) == p
  {
    BlanksAreFlat(n);
    assert Buried(p, n).archives[1..] == Blanks(n);
    assert Flat(Buried(p, n).archives) == [p] + [];
    assert Held(Buried(p, n)) == [p];
  }

  lemma DeepestIsLost(p: seq<byte>, n: nat)
    requires n == PROBE_LIMIT
    ensures |RotateShelf(Buried(p, n)).archives| == n + 1
    ensures Bytes(Held(RotateShelf(Buried(p, n)))) == []
  {
    assert Buried(p, n).archives[1..] + [[]] == Blanks(n + 1);
    BlanksAreFlat(n + 1);
  }

  method LogAndArchive(cfg: Config, p: seq<byte>, now: Hour) returns (w: RotatingWriter)
    requires cfg.maxSizeMB > 0 ==> |p| <= Limit(cfg)
    ensures fresh(w) && w.Valid() && w.cfg == cfg && w.hour == now
    ensures w.ShelfAt(Stem(cfg, now)) == Buried(p, 0)
  {
    w := new RotatingWriter(cfg, now);
    ghost var st := Stem(cfg, now);
    assert w.ShelfAt(st) == EMPTY;
    FirstWrite(cfg, p, now);
    w.Write(p, now);
    assert w.ShelfAt(st) == Shelf([], [p]);
    BuriedDeeper(p, 0);
    w.Rotate(now);
  }

  lemma FirstWrite(cfg: Config, p: seq<byte>, now: Hour)
    requires cfg.maxSizeMB > 0 ==> |p| <= Limit(cfg)
    ensures Perform(cfg, EMPTY, Log(p, now), true) == Shelf([], [p])
    ensures forall sh :: Perform(cfg, sh, Rotate(now), true) == RotateShelf(sh)
  {
    assert [] + [p] == [p];
  }

  /** A run that reaches 10001 archives, the last of which holds the only write. */
  method FillArchives(cfg: Config, p: seq<byte>, now: Hour) returns (w: RotatingWriter)
    requires cfg.maxSizeMB > 0 ==> |p| <= Limit(cfg)
    ensures fresh(w) && w.Valid() && w.cfg == cfg && w.hour == now
    ensures w.ShelfAt(Stem(cfg, now)) == Deepest(p)
  {
    w := LogAndArchive(cfg, p, now);
    ghost var st := Stem(cfg, now);
    var i := 0;
    while i < PROBE_LIMIT
      invariant 0 <= i <= PROBE_LIMIT && fresh(w) && w.Valid() && w.cfg == cfg && w.hour == now
      invariant w.ShelfAt(st) == Buried(p, i)
    {
      BuriedDeeper(p, i);
      w.Rotate(now);
      i := i + 1;
    }
  }

  /** A write can be lost: after it and 10001 rotations within its hour the log still holds
      it, and one more rotation overwrites it. */
  method OldestWriteLost(cfg: Config, p: seq<byte>, now: Hour) returns (before: Directory, after: Directory)
    requires cfg.maxSizeMB > 0 ==> |p| <= Limit(cfg)
    ensures var st := Stem(cfg, now);
            && Stacked(before, st, PROBE_LIMIT + 1) && LogBytes(before, st, PROBE_LIMIT + 1) == p
            && after == Archive(before, st, PROBE_LIMIT)[CurrentName(st) := []]
            && Stacked(after, st, PROBE_LIMIT + 1) && LogBytes(after, st, PROBE_LIMIT + 1) == []
  {
    var w := FillArchives(cfg, p, now);
    ghost var st := Stem(cfg, now);
    StemOfHour(cfg, now, now);
    ghost var sh := Deepest(p);
    DeepestHolds(p, PROBE_LIMIT);
    DeepestIsLost(p, PROBE_LIMIT);
    before := w.fs;
    w.ShelfReads(st, sh, PROBE_LIMIT + 1, p);
    w.Rotate(now);
    after := w.fs;
    w.ShelfReads(st, RotateShelf(sh), PROBE_LIMIT + 1, []);
  }
}
