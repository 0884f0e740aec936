/** What a run of the log writer leaves behind, as a function of its events: for each stem a
    shelf of archives and a current file. */
module LogSpec {
  import opened Basics
  import opened LogFiles

  // ----- Shelves -----

  /** The files of a stem, archives oldest first. */
  datatype Shelf = Shelf(archives: seq<File>, current: File)

  const EMPTY: Shelf := Shelf([], [])

  function Flat(files: seq<File>): File {
    if files == [] then [] else files[0] + Flat(files[1..])
  }

  /** Everything on a shelf, oldest first. */
  function Held(sh: Shelf): File {
    Flat(sh.archives) + sh.current
  }

  /** The archive that the next rotation overwrites: the one past the probing limit. */
  function Overwritten(sh: Shelf): File {
    if |sh.archives| > PROBE_LIMIT then sh.archives[0] else []
  }

  /** Rotation: the current file becomes the newest archive. */
  function RotateShelf(sh: Shelf): Shelf {
    Shelf((if |sh.archives| > PROBE_LIMIT then sh.archives[1..] else sh.archives) + [sh.current], [])
  }

  lemma {:induction false} FlatAppend(files: seq<File>, f: File)
    ensures Flat(files + [f]) == Flat(files) + f
  {
    if files == [] {
      assert Flat([f]) == f + Flat([]);
    } else {
      assert (files + [f])[1..] == files[1..] + [f];
      FlatAppend(files[1..], f);
      assert files[0] + (Flat(files[1..]) + f) == files[0] + Flat(files[1..]) + f;
    }
  }

  /** A rotation loses exactly what it overwrites. */
  lemma RotationAccounts(sh: Shelf)
    ensures Held(sh) == Overwritten(sh) + Held(RotateShelf(sh))
  {
    var kept := if |sh.archives| > PROBE_LIMIT then sh.archives[1..] else sh.archives;
    FlatAppend(kept, sh.current);
    assert Held(RotateShelf(sh)) == Flat(kept) + sh.current;
    assert Flat(sh.archives) == Overwritten(sh) + Flat(kept);
    assert Overwritten(sh) + Flat(kept) + sh.current == Overwritten(sh) + (Flat(kept) + sh.current);
  }

  // ----- Shelves in a directory -----

  ghost predicate ArchiveIs(fs: Directory, stem: string, archives: seq<File>, i: nat)
    requires 1 <= i <= |archives|
  {
    At(fs, SeqName(stem, i)) == archives[|archives| - i]
  }

  /** The directory holds the shelf under a stem: the archives, numbered without a gap from 1,
      the newest, and the current file; a missing current file counts as empty. */
  ghost predicate Shelved(fs: Directory, stem: string, sh: Shelf) {
    && |sh.archives| <= PROBE_LIMIT + 1 && Stacked(fs, stem, |sh.archives|)
    && (forall i: nat {:trigger ArchiveIs(fs, stem, sh.archives, i)} ::
          1 <= i <= |sh.archives| ==> ArchiveIs(fs, stem, sh.archives, i))
    && At(fs, CurrentName(stem)) == sh.current
  }

  /** Another stem keeps its shelf. */
  lemma OtherStem(cfg: Config, fs: Directory, r: Directory, stem: string, other: string)
    requires IsStem(cfg, stem) && IsStem(cfg, other) && stem != other && ElsewhereSame(fs, r, stem)
    ensures CurrentName(other) in r <==> CurrentName(other) in fs
    ensures forall sh :: Shelved(fs, other, sh) ==> Shelved(r, other, sh)
    ensures Absent(fs, other) ==> Absent(r, other)
  {
    NotOwned(cfg, stem, other, 0);
    assert SameFile(fs, r, CurrentName(other));
    forall i: nat ensures SameFile(fs, r, SeqName(other, i)) {
      NotOwned(cfg, stem, other, i);
    }
    forall sh | Shelved(fs, other, sh) ensures Shelved(r, other, sh) {
      SameShelf(fs, r, other, sh);
    }
  }

  lemma SameShelf(fs: Directory, r: Directory, stem: string, sh: Shelf)
    requires Shelved(fs, stem, sh) && SameFile(fs, r, CurrentName(stem))
    requires forall i: nat {:trigger SeqName(stem, i)} :: SameFile(fs, r, SeqName(stem, i))
    ensures Shelved(r, stem, sh)
  {
    forall i: nat | 1 <= i <= |sh.archives| ensures ArchiveIs(r, stem, sh.archives, i) {
      assert ArchiveIs(fs, stem, sh.archives, i);
    }
  }

  /** Changing the current file changes the shelf's current file. */
  lemma CurrentChange(fs: Directory, stem: string, sh: Shelf, f: File)
    requires Shelved(fs, stem, sh)
    ensures var r := fs[CurrentName(stem) := f]; Shelved(r, stem, sh.(current := f)) && ElsewhereSame(fs, r, stem)
  {
    var r := fs[CurrentName(stem) := f];
    forall i: nat ensures SameFile(fs, r, SeqName(stem, i)) {
      NamesDistinct(stem, i, i);
    }
    forall i: nat | 1 <= i <= |sh.archives| ensures ArchiveIs(r, stem, sh.archives, i) {
      assert ArchiveIs(fs, stem, sh.archives, i);
    }
    OwnNames(stem, 0);
  }

  lemma ArchivedShelf(fs: Directory, mid: Directory, stem: string, sh: Shelf)
    requires Shelved(fs, stem, sh) && Archived(fs, mid, stem, Min(|sh.archives|, PROBE_LIMIT))
    requires Stacked(mid, stem, Min(|sh.archives| + 1, PROBE_LIMIT + 1))
    ensures Shelved(mid, stem, RotateShelf(sh))
  {
    var archives := RotateShelf(sh).archives;
    forall i: nat | 1 <= i <= |archives| ensures ArchiveIs(mid, stem, archives, i) {
      ArchivedPlace(fs, mid, stem, sh, i);
    }
  }

  lemma ArchivedPlace(fs: Directory, mid: Directory, stem: string, sh: Shelf, i: nat)
    requires Shelved(fs, stem, sh) && Archived(fs, mid, stem, Min(|sh.archives|, PROBE_LIMIT))
    requires 1 <= i <= |RotateShelf(sh).archives|
    ensures ArchiveIs(mid, stem, RotateShelf(sh).archives, i)
  {
    if i > 1 {
      assert MovedUp(fs, mid, stem, i - 1);
      assert ArchiveIs(fs, stem, sh.archives, i - 1);
      NewPlace(sh, i);
    }
  }

  /** Where a rotation puts the archive numbered `i - 1`. */
  lemma NewPlace(sh: Shelf, i: nat)
    requires |sh.archives| <= PROBE_LIMIT + 1 && 2 <= i <= |RotateShelf(sh).archives|
    ensures var archives := RotateShelf(sh).archives;
            archives[|archives| - i] == sh.archives[|sh.archives| - (i - 1)]
  {
  }

  /** Archiving the files of a stem and opening an empty current file rotates its shelf. */
  lemma ArchivingRotates(fs: Directory, stem: string, sh: Shelf)
    requires Shelved(fs, stem, sh) && CurrentName(stem) in fs
    ensures var mid := Archive(fs, stem, Min(|sh.archives|, PROBE_LIMIT));
            var r := mid[CurrentName(stem) := []];
            CurrentName(stem) !in mid && Shelved(r, stem, RotateShelf(sh)) && ElsewhereSame(fs, r, stem)
  {
    var k := |sh.archives|;
    var m := Min(k, PROBE_LIMIT);
    var mid := Archive(fs, stem, m);
    ArchiveEffect(fs, stem, m);
    ArchivedStack(fs, mid, stem, k);
    ArchiveStaysHome(fs, mid, stem, m);
    ArchivedShelf(fs, mid, stem, sh);
    CurrentChange(mid, stem, RotateShelf(sh), []);
    ElsewhereTwice(fs, mid, mid[CurrentName(stem) := []], stem);
  }

  lemma {:induction false} ShelvedArchives(fs: Directory, stem: string, sh: Shelf, j: nat)
    requires Shelved(fs, stem, sh) && j <= |sh.archives|
    ensures OldestFirst(fs, stem, j) == Flat(sh.archives[|sh.archives| - j..])
  {
    if j > 0 {
      ShelvedArchives(fs, stem, sh, j - 1);
      assert ArchiveIs(fs, stem, sh.archives, j);
      assert sh.archives[|sh.archives| - j..][1..] == sh.archives[|sh.archives| - (j - 1)..];
    }
  }

  /** The bytes of the files, archives from highest to lowest number and then the current
      file, are the bytes of the shelf. */
  lemma ShelvedBytes(fs: Directory, stem: string, sh: Shelf)
    requires Shelved(fs, stem, sh)
    ensures LogBytes(fs, stem, |sh.archives|) == Bytes(Held(sh))
  {
    ShelvedArchives(fs, stem, sh, |sh.archives|);
    assert sh.archives[0..] == sh.archives;
    LogBytesAreWrites(fs, stem, |sh.archives|);
  }

  // ----- Runs -----

  datatype Event = Log(p: seq<byte>, now: Hour) | Rotate(now: Hour)

  /** The stem in use after `n` events. */
  function StemAt(cfg: Config, start: Hour, events: seq<Event>, n: nat): string
    requires n <= |events|
  {
    Stem(cfg, if n == 0 then start else events[n - 1].now)
  }

  predicate TooBig(cfg: Config, current: File, p: seq<byte>) {
    cfg.maxSizeMB > 0 && Size(current) + |p| > Limit(cfg)
  }

  /** Does the event archive the current file of its stem? Only if that stem was already in
      use: a change of hour opens another file instead. */
  predicate Rotates(cfg: Config, sh: Shelf, e: Event, inUse: bool) {
    inUse && (e.Rotate? || TooBig(cfg, sh.current, e.p))
  }

  function Perform(cfg: Config, sh: Shelf, e: Event, inUse: bool): Shelf {
    var s := if Rotates(cfg, sh, e, inUse) then RotateShelf(sh) else sh;
    if e.Log? then s.(current := s.current + [e.p]) else s
  }

  /** What a write does to a shelf, in numbers. Within the hour in use, a write that keeps the
      current file within `maxSizeMB` megabytes, or any write without a limit, is appended to
      it; one that would pass the limit goes to a new file, and the old one becomes the newest
      of at most 10001 archives. A write that changes the hour is appended. */
  ghost predicate LoggedAs(cfg: Config, sh: Shelf, sh': Shelf, p: seq<byte>, inUse: bool) {
    if !inUse || cfg.maxSizeMB <= 0 || Size(sh.current) + |p| <= cfg.maxSizeMB * 1048576
    then sh' == Shelf(sh.archives, sh.current + [p])
    else sh'.current == [p] && ArchivedAs(sh, sh')
  }

  /** The current file has become the newest archive, and the oldest has gone if there were
      10001 already. */
  ghost predicate ArchivedAs(sh: Shelf, sh': Shelf) {
    sh'.archives == (if |sh.archives| >= 10001 then sh.archives[1..] else sh.archives) + [sh.current]
  }

  ghost predicate RotatedAs(sh: Shelf, sh': Shelf) {
    sh'.current == [] && ArchivedAs(sh, sh')
  }

  lemma RotateMeaning(sh: Shelf)
    requires |sh.archives| <= 10001
    ensures RotatedAs(sh, RotateShelf(sh))
  {
  }

  lemma LogMeaning(cfg: Config, sh: Shelf, p: seq<byte>, now: Hour, inUse: bool)
    requires |sh.archives| <= 10001
    ensures LoggedAs(cfg, sh, Perform(cfg, sh, Log(p, now), inUse), p, inUse)
  {
    RotateMeaning(sh);
    assert [] + [p] == [p];
  }

  /** The shelf of a stem after the first `n` events. */
  function ShelfAfter(cfg: Config, start: Hour, events: seq<Event>, n: nat, stem: string): Shelf
    requires n <= |events|
  {
    if n == 0 then EMPTY else
      var sh := ShelfAfter(cfg, start, events, n - 1, stem);
      if StemAt(cfg, start, events, n) != stem then sh
      else Perform(cfg, sh, events[n - 1], StemAt(cfg, start, events, n - 1) == stem)
  }

  /** The writes of the first `n` events that belong to a stem, in order. */
  function WritesOf(cfg: Config, events: seq<Event>, n: nat, stem: string): File
    requires n <= |events|
  {
    if n == 0 then [] else
      var e := events[n - 1];
      WritesOf(cfg, events, n - 1, stem) + if e.Log? && Stem(cfg, e.now) == stem then [e.p] else []
  }

  /** What event `i` overwrites of a stem. */
  function OverwrittenAt(cfg: Config, start: Hour, events: seq<Event>, i: nat, stem: string): File
    requires i < |events|
  {
    var sh := ShelfAfter(cfg, start, events, i, stem);
    if StemAt(cfg, start, events, i + 1) == stem && Rotates(cfg, sh, events[i], StemAt(cfg, start, events, i) == stem)
    then Overwritten(sh) else []
  }

  /** Everything of a stem that the first `n` events overwrote, oldest first. */
  function Lost(cfg: Config, start: Hour, events: seq<Event>, n: nat, stem: string): File
    requires n <= |events|
  {
    if n == 0 then [] else Lost(cfg, start, events, n - 1, stem) + OverwrittenAt(cfg, start, events, n - 1, stem)
  }

  lemma PerformAccounts(cfg: Config, sh: Shelf, e: Event, inUse: bool)
    ensures Held(sh) + (if e.Log? then [e.p] else []) ==
            (if Rotates(cfg, sh, e, inUse) then Overwritten(sh) else []) + Held(Perform(cfg, sh, e, inUse))
  {
    RotationAccounts(sh);
    var s := if Rotates(cfg, sh, e, inUse) then RotateShelf(sh) else sh;
    var lost := if Rotates(cfg, sh, e, inUse) then Overwritten(sh) else [];
    assert Held(sh) == lost + Held(s);
    if e.Log? {
      assert Held(Perform(cfg, sh, e, inUse)) == Held(s) + [e.p];
      assert lost + Held(s) + [e.p] == lost + (Held(s) + [e.p]);
    } else {
      assert Held(sh) + [] == Held(sh);
    }
  }

  /** What was written under a stem is what was overwritten followed by what the shelf holds,
      in order. */
  ghost predicate Accounted(cfg: Config, start: Hour, events: seq<Event>, n: nat, stem: string)
    requires n <= |events|
  {
    WritesOf(cfg, events, n, stem) == Lost(cfg, start, events, n, stem) + Held(ShelfAfter(cfg, start, events, n, stem))
  }

  lemma AccountedAtFirst(cfg: Config, start: Hour, events: seq<Event>, stem: string)
    ensures Accounted(cfg, start, events, 0, stem)
  {
    assert Held(EMPTY) == [];
  }

  lemma AccountedNext(cfg: Config, start: Hour, events: seq<Event>, n: nat, stem: string)
    requires n < |events| && Accounted(cfg, start, events, n, stem)
    ensures Accounted(cfg, start, events, n + 1, stem)
  {
    var e := events[n];
    var sh, sh' := ShelfAfter(cfg, start, events, n, stem), ShelfAfter(cfg, start, events, n + 1, stem);
    var over := OverwrittenAt(cfg, start, events, n, stem);
    var more := if e.Log? && Stem(cfg, e.now) == stem then [e.p] else [];
    if Stem(cfg, e.now) == stem {
      PerformAccounts(cfg, sh, e, StemAt(cfg, start, events, n) == stem);
    }
    assert Held(sh) + more == over + Held(sh');
    Regroup(Lost(cfg, start, events, n, stem), Held(sh), more, over, Held(sh'));
  }

  lemma Regroup(lost: File, held: File, more: File, over: File, held': File)
    requires held + more == over + held'
    ensures lost + held + more == lost + over + held'
  {
    assert lost + held + more == lost + (held + more);
  }

  /** Conservation in every run. */
  lemma {:induction false} WritesAccounted(cfg: Config, start: Hour, events: seq<Event>, n: nat, stem: string)
    requires n <= |events|
    ensures Accounted(cfg, start, events, n, stem)
  {
    if n == 0 {
      AccountedAtFirst(cfg, start, events, stem);
    } else {
      WritesAccounted(cfg, start, events, n - 1, stem);
      AccountedNext(cfg, start, events, n - 1, stem);
    }
  }

  /** Event `i` overwrites bytes of a stem. */
  ghost predicate LosesAt(cfg: Config, start: Hour, events: seq<Event>, i: nat, stem: string)
    requires i < |events|
  {
    Size(OverwrittenAt(cfg, start, events, i, stem)) > 0
  }

  ghost predicate LosesBytes(cfg: Config, start: Hour, events: seq<Event>, n: nat, stem: string)
    requires n <= |events|
  {
    exists i {:trigger LosesAt(cfg, start, events, i, stem)} :: 0 <= i < n && LosesAt(cfg, start, events, i, stem)
  }

  ghost predicate LossShows(cfg: Config, start: Hour, events: seq<Event>, n: nat, stem: string)
    requires n <= |events|
  {
    Size(Lost(cfg, start, events, n, stem)) > 0 <==> LosesBytes(cfg, start, events, n, stem)
  }

  lemma LosesNext(cfg: Config, start: Hour, events: seq<Event>, n: nat, stem: string)
    requires n < |events|
    ensures LosesBytes(cfg, start, events, n + 1, stem) <==>
            LosesBytes(cfg, start, events, n, stem) || LosesAt(cfg, start, events, n, stem)
  {
  }

  lemma LossShowsNext(cfg: Config, start: Hour, events: seq<Event>, n: nat, stem: string)
    requires n < |events| && LossShows(cfg, start, events, n, stem)
    ensures LossShows(cfg, start, events, n + 1, stem)
  {
    LosesNext(cfg, start, events, n, stem);
    var lost, over := Lost(cfg, start, events, n, stem), OverwrittenAt(cfg, start, events, n, stem);
    BytesConcat(lost, over);
    assert Size(lost + over) == Size(lost) + Size(over);
  }

  lemma {:induction false} LostIff(cfg: Config, start: Hour, events: seq<Event>, n: nat, stem: string)
    requires n <= |events|
    ensures LossShows(cfg, start, events, n, stem)
  {
    if n > 0 {
      LostIff(cfg, start, events, n - 1, stem);
      LossShowsNext(cfg, start, events, n - 1, stem);
    }
  }

  /** The shelf holds every byte written exactly unless some rotation overwrote an archive
      that was not empty. */
  lemma HeldUnlessOverwritten(cfg: Config, start: Hour, events: seq<Event>, n: nat, stem: string)
    requires n <= |events|
    ensures var held := Bytes(Held(ShelfAfter(cfg, start, events, n, stem)));
            var written := Bytes(WritesOf(cfg, events, n, stem));
            && written == Bytes(Lost(cfg, start, events, n, stem)) + held
            && (held == written <==> !LosesBytes(cfg, start, events, n, stem))
  {
    WritesAccounted(cfg, start, events, n, stem);
    BytesConcat(Lost(cfg, start, events, n, stem), Held(ShelfAfter(cfg, start, events, n, stem)));
    LostIff(cfg, start, events, n, stem);
  }

  /** Nothing is lost while there are at most 10000 archives. */
  lemma {:induction false} NothingLostBelowLimit(cfg: Config, start: Hour, events: seq<Event>, n: nat, stem: string)
    requires n <= |events|
    ensures |ShelfAfter(cfg, start, events, n, stem).archives| <= PROBE_LIMIT + 1
    ensures |ShelfAfter(cfg, start, events, n, stem).archives| <= PROBE_LIMIT ==> Lost(cfg, start, events, n, stem) == []
  {
    if n > 0 {
      NothingLostBelowLimit(cfg, start, events, n - 1, stem);
    }
  }

  // ----- Hours -----

  /** The stem was in use at some point of the first `n` events. */
  ghost predicate Seen(cfg: Config, start: Hour, events: seq<Event>, n: nat, stem: string)
    requires n <= |events|
  {
    exists j :: 0 <= j <= n && StemAt(cfg, start, events, j) == stem
  }

  /** Event `i` stays in its hour or opens one that was not in use before. */
  ghost predicate MovesOn(cfg: Config, start: Hour, events: seq<Event>, i: nat)
    requires i < |events|
  {
    var st := StemAt(cfg, start, events, i + 1);
    st == StemAt(cfg, start, events, i) || !Seen(cfg, start, events, i, st)
  }

  /** No hour comes back once it has been left, as on any clock that goes forward. */
  ghost predicate NoHourReturns(cfg: Config, start: Hour, events: seq<Event>) {
    forall i {:trigger MovesOn(cfg, start, events, i)} :: 0 <= i < |events| ==> MovesOn(cfg, start, events, i)
  }

  lemma {:induction false} UnseenIsEmpty(cfg: Config, start: Hour, events: seq<Event>, n: nat, stem: string)
    requires n <= |events| && !Seen(cfg, start, events, n, stem)
    ensures ShelfAfter(cfg, start, events, n, stem) == EMPTY
  {
    if n > 0 {
      assert forall j :: 0 <= j <= n - 1 ==> StemAt(cfg, start, events, j) != stem;
      UnseenIsEmpty(cfg, start, events, n - 1, stem);
      assert StemAt(cfg, start, events, n) != stem;
    }
  }
}
