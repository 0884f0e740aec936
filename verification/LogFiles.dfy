/** Log files over an abstract directory: a map from file name to the writes appended to it.
    File names, the renaming of archives, and file sizes. */
module LogFiles {
  import opened Basics
  import opened Strings

  /** A file as the list of writes appended to it; its bytes are their concatenation. */
  type File = seq<seq<byte>>

  type Directory = map<string, File>

  const HOUR_LEN: nat := 11   // the layout 20060102-15

  type Hour = h: string | |h| == HOUR_LEN witness "00000000-00"

  datatype Config = Config(basename: string, maxSizeMB: int, rotateByHour: bool)

  /** Probing stops once this many archives have been counted. */
  const PROBE_LIMIT: nat := 10000

  function Bytes(f: File): seq<byte> {
    if f == [] then [] else Bytes(f[..|f| - 1]) + f[|f| - 1]
  }

  function Size(f: File): nat {
    |Bytes(f)|
  }

  lemma {:induction false} BytesConcat(f: File, g: File)
    ensures Bytes(f + g) == Bytes(f) + Bytes(g)
    decreases |g|
  {
    if g == [] {
      assert f + g == f;
    } else {
      var rest, last := g[..|g| - 1], g[|g| - 1];
      BytesConcat(f, rest);
      assert (f + g)[..|f + g| - 1] == f + rest && (f + g)[|f + g| - 1] == last;
      assert Bytes(f) + Bytes(rest) + last == Bytes(f) + (Bytes(rest) + last);
    }
  }

  lemma SizeAppend(f: File, p: seq<byte>)
    ensures Size(f + [p]) == Size(f) + |p|
  {
    assert (f + [p])[..|f|] == f;
  }

  // ----- File names -----

  /** The common start of the names of one hour, or of all of them in non-hourly mode. */
  function Stem(cfg: Config, hour: Hour): string {
    if cfg.rotateByHour then cfg.basename + "." + hour else cfg.basename
  }

  function CurrentName(stem: string): string {
    stem + ".log"
  }

  function SeqName(stem: string, i: nat): string {
    stem + "." + Decimal(i) + ".log"
  }

  lemma NameExamples()
    ensures var cfg := Config("app", 100, true);
            && CurrentName(Stem(cfg, "20240102-15")) == "app.20240102-15.log"
            && SeqName(Stem(cfg, "20240102-15"), 12) == "app.20240102-15.12.log"
    ensures CurrentName(Stem(Config("app", 100, false), "20240102-15")) == "app.log"
    ensures SeqName(Stem(Config("app", 100, false), "20240102-15"), 3) == "app.3.log"
  {
    assert Decimal(12) == "1" + "2" && Decimal(3) == "3";
    assert "app" + "." + "20240102-15" == "app.20240102-15";
    assert "app.20240102-15" + "." + "12" + ".log" == "app.20240102-15.12.log";
  }

  lemma NamesDistinct(stem: string, i: nat, j: nat)
    ensures SeqName(stem, i) != CurrentName(stem)
    ensures SeqName(stem, i) == SeqName(stem, j) ==> i == j
  {
    assert |SeqName(stem, i)| > |CurrentName(stem)|;
    var a, b := SeqName(stem, i), SeqName(stem, j);
    if a == b {
      assert Decimal(i) == a[|stem| + 1..|a| - 4];
      assert Decimal(j) == b[|stem| + 1..|b| - 4];
      DecimalInjective(i, j);
    }
  }

  /** Is a name one of a stem's files? */
  ghost predicate Owns(stem: string, name: string) {
    |name| >= |stem| && name[..|stem|] == stem
  }

  lemma OwnNames(stem: string, i: nat)
    ensures Owns(stem, CurrentName(stem)) && Owns(stem, SeqName(stem, i))
  {
  }

  // ----- The directory -----

  /** os.Rename, whose error on a missing source is ignored. */
  function Rename(fs: Directory, from: string, to: string): Directory {
    if from in fs then (fs - {from})[to := fs[from]] else fs
  }

  /** The archives of a stem are numbered 1 to k without a gap. */
  ghost predicate Stacked(fs: Directory, stem: string, k: nat) {
    forall i: nat {:trigger SeqName(stem, i)} :: i >= 1 ==> (SeqName(stem, i) in fs <==> i <= k)
  }

  /** Renaming i to i + 1 from the highest number down to 1. */
  function RenameDown(fs: Directory, stem: string, i: nat): Directory
    decreases i
  {
    if i == 0 then fs else RenameDown(Rename(fs, SeqName(stem, i), SeqName(stem, i + 1)), stem, i - 1)
  }

  lemma RenameDownStep(fs: Directory, stem: string, i: nat)
    requires i >= 1
    ensures RenameDown(fs, stem, i) == RenameDown(Rename(fs, SeqName(stem, i), SeqName(stem, i + 1)), stem, i - 1)
  {
  }

  /** Shifting by one: every archive moves up, and no other name is touched. */
  ghost predicate ShiftedUp(fs: Directory, r: Directory, stem: string, m: nat) {
    && (forall i: nat {:trigger MovedUp(fs, r, stem, i)} :: 1 <= i <= m ==> MovedUp(fs, r, stem, i))
    && (if m >= 1 then SeqName(stem, 1) !in r else r == fs)
    && (forall n: string {:trigger SameFile(fs, r, n)} :: !Numbered(stem, n, m + 1) ==> SameFile(fs, r, n))
  }

  ghost predicate MovedUp(fs: Directory, r: Directory, stem: string, i: nat) {
    SeqName(stem, i) in fs && SeqName(stem, i + 1) in r && r[SeqName(stem, i + 1)] == fs[SeqName(stem, i)]
  }

  ghost predicate SameFile(fs: Directory, r: Directory, n: string) {
    (n in r <==> n in fs) && (n in fs ==> r[n] == fs[n])
  }

  ghost predicate Numbered(stem: string, n: string, m: nat) {
    exists i: nat :: 1 <= i <= m && n == SeqName(stem, i)
  }

  lemma NotNumbered(stem: string, i: nat, m: nat)
    requires i > m
    ensures !Numbered(stem, SeqName(stem, i), m) && !Numbered(stem, CurrentName(stem), m)
  {
    forall j: nat | 1 <= j <= m ensures SeqName(stem, j) != SeqName(stem, i) && SeqName(stem, j) != CurrentName(stem) {
      NamesDistinct(stem, j, i);
    }
  }

  lemma {:induction false} RenameDownShifts(fs: Directory, stem: string, m: nat)
    requires forall i: nat {:trigger SeqName(stem, i)} :: 1 <= i <= m ==> SeqName(stem, i) in fs
    ensures ShiftedUp(fs, RenameDown(fs, stem, m), stem, m)
    decreases m
  {
    if m > 0 {
      var from, to := SeqName(stem, m), SeqName(stem, m + 1);
      var mid := Rename(fs, from, to);
      var r := RenameDown(mid, stem, m - 1);
      NamesDistinct(stem, m, m + 1);
      forall i: nat | 1 <= i <= m - 1 ensures SeqName(stem, i) in mid && mid[SeqName(stem, i)] == fs[SeqName(stem, i)] {
        NamesDistinct(stem, i, m);
        NamesDistinct(stem, i, m + 1);
      }
      RenameDownShifts(mid, stem, m - 1);
      RenameStepMoves(fs, mid, r, stem, m);
    } else {
      forall n: string ensures SameFile(fs, fs, n) {}
    }
  }

  lemma RenameStepMoves(fs: Directory, mid: Directory, r: Directory, stem: string, m: nat)
    requires m >= 1 && SeqName(stem, m) in fs && mid == Rename(fs, SeqName(stem, m), SeqName(stem, m + 1))
    requires forall i: nat {:trigger SeqName(stem, i)} :: 1 <= i <= m - 1 ==>
               SeqName(stem, i) in fs && SeqName(stem, i) in mid && mid[SeqName(stem, i)] == fs[SeqName(stem, i)]
    requires ShiftedUp(mid, r, stem, m - 1)
    ensures ShiftedUp(fs, r, stem, m)
  {
    var from, to := SeqName(stem, m), SeqName(stem, m + 1);
    NamesDistinct(stem, m, m + 1);
    NotNumbered(stem, m + 1, m);
    assert SameFile(mid, r, to);
    forall i: nat | 1 <= i <= m ensures MovedUp(fs, r, stem, i) {
      if i < m {
        assert MovedUp(mid, r, stem, i);
      }
    }
    forall n: string | !Numbered(stem, n, m + 1) ensures SameFile(fs, r, n) {
      NumberedMore(stem, n, m);
      assert SameFile(mid, r, n);
    }
  }

  lemma NumberedMore(stem: string, n: string, m: nat)
    requires m >= 1 && !Numbered(stem, n, m + 1)
    ensures n != SeqName(stem, m) && n != SeqName(stem, m + 1) && !Numbered(stem, n, m - 1 + 1)
  {
  }

  // ----- Contents -----

  function At(fs: Directory, name: string): File {
    if name in fs then fs[name] else []
  }

  /** The archives of a stem from number k, the oldest, down to number 1. */
  function OldestFirst(fs: Directory, stem: string, k: nat): File {
    if k == 0 then [] else At(fs, SeqName(stem, k)) + OldestFirst(fs, stem, k - 1)
  }

  /** Everything a stem's files hold, oldest first. */
  function Content(fs: Directory, stem: string, k: nat): File {
    OldestFirst(fs, stem, k) + At(fs, CurrentName(stem))
  }

  /** shiftAndArchive: the archives move up by one and the current file becomes number 1. */
  function Archive(fs: Directory, stem: string, m: nat): Directory {
    Rename(RenameDown(fs, stem, m), CurrentName(stem), SeqName(stem, 1))
  }

  function Min(a: nat, b: nat): nat {
    if a < b then a else b
  }

  /** What archiving does to each name. */
  ghost predicate Archived(fs: Directory, r: Directory, stem: string, m: nat) {
    && (forall i: nat {:trigger MovedUp(fs, r, stem, i)} :: 1 <= i <= m ==> MovedUp(fs, r, stem, i))
    && SeqName(stem, 1) in r && CurrentName(stem) in fs && r[SeqName(stem, 1)] == fs[CurrentName(stem)]
    && CurrentName(stem) !in r
    && (forall n: string {:trigger SameFile(fs, r, n)} ::
          n != CurrentName(stem) && !Numbered(stem, n, m + 1) ==> SameFile(fs, r, n))
  }

  lemma ArchiveEffect(fs: Directory, stem: string, m: nat)
    requires forall i: nat {:trigger SeqName(stem, i)} :: 1 <= i <= m ==> SeqName(stem, i) in fs
    requires CurrentName(stem) in fs
    ensures Archived(fs, Archive(fs, stem, m), stem, m)
  {
    RenameDownShifts(fs, stem, m);
    var mid := RenameDown(fs, stem, m);
    var cur, one := CurrentName(stem), SeqName(stem, 1);
    NamesDistinct(stem, 1, 1);
    NotNumbered(stem, m + 2, m + 1);
    assert SameFile(fs, mid, cur);
    var r := Rename(mid, cur, one);
    forall i: nat | 1 <= i <= m ensures MovedUp(fs, r, stem, i) {
      assert MovedUp(fs, mid, stem, i);
      NamesDistinct(stem, i + 1, 1);
    }
    forall n: string | n != cur && !Numbered(stem, n, m + 1) ensures SameFile(fs, r, n) {
      assert SameFile(fs, mid, n);
      assert n != one;
    }
  }

  /** Archiving puts the current file behind the archives that were kept. */
  lemma {:induction false} ArchivedOrder(fs: Directory, r: Directory, stem: string, m: nat, j: nat)
    requires Archived(fs, r, stem, m) && j <= m
    ensures OldestFirst(r, stem, j + 1) == OldestFirst(fs, stem, j) + fs[CurrentName(stem)]
  {
    if j == 0 {
      assert OldestFirst(r, stem, 1) == At(r, SeqName(stem, 1)) + OldestFirst(r, stem, 0);
    } else {
      ArchivedOrder(fs, r, stem, m, j - 1);
      assert MovedUp(fs, r, stem, j);
      var top, rest, cur := At(fs, SeqName(stem, j)), OldestFirst(fs, stem, j - 1), fs[CurrentName(stem)];
      assert OldestFirst(r, stem, j + 1) == top + (rest + cur) == top + rest + cur;
    }
  }

  lemma ArchivedStack(fs: Directory, r: Directory, stem: string, k: nat)
    requires Stacked(fs, stem, k) && k <= PROBE_LIMIT + 1 && Archived(fs, r, stem, Min(k, PROBE_LIMIT))
    ensures Stacked(r, stem, Min(k + 1, PROBE_LIMIT + 1))
  {
    var m := Min(k, PROBE_LIMIT);
    forall i: nat | i >= 1 ensures SeqName(stem, i) in r <==> i <= Min(k + 1, PROBE_LIMIT + 1) {
      if 2 <= i <= m + 1 {
        assert MovedUp(fs, r, stem, i - 1);
      } else if i > m + 1 {
        NotNumbered(stem, i, m + 1);
        NamesDistinct(stem, i, i);
        assert SameFile(fs, r, SeqName(stem, i));
      }
    }
  }

  /** One size-triggered rotation keeps every write, in order, exactly when the archive past
      the probing limit does not exist or is empty; otherwise that oldest archive is lost. */
  lemma RotationKeepsWritesIff(fs: Directory, stem: string, k: nat)
    requires Stacked(fs, stem, k) && k <= PROBE_LIMIT + 1 && CurrentName(stem) in fs
    ensures var r := Archive(fs, stem, Min(k, PROBE_LIMIT));
            var k' := Min(k + 1, PROBE_LIMIT + 1);
            && Stacked(r, stem, k') && CurrentName(stem) !in r
            && (Content(r, stem, k') == Content(fs, stem, k) <==>
                  k <= PROBE_LIMIT || fs[SeqName(stem, PROBE_LIMIT + 1)] == [])
            && (k > PROBE_LIMIT ==> Content(fs, stem, k) == fs[SeqName(stem, k)] + Content(r, stem, k'))
  {
    var m := Min(k, PROBE_LIMIT);
    var r := Archive(fs, stem, m);
    ArchiveEffect(fs, stem, m);
    ArchivedStack(fs, r, stem, k);
    ArchivedContent(fs, r, stem, k);
    if k > PROBE_LIMIT {
      assert SeqName(stem, k) in fs;
      LostPrefix(fs[SeqName(stem, k)], Content(fs, stem, m));
    }
  }

  lemma ArchivedContent(fs: Directory, r: Directory, stem: string, k: nat)
    requires Stacked(fs, stem, k) && k <= PROBE_LIMIT + 1 && Archived(fs, r, stem, Min(k, PROBE_LIMIT))
    ensures Content(r, stem, Min(k + 1, PROBE_LIMIT + 1)) == Content(fs, stem, Min(k, PROBE_LIMIT))
    ensures k > PROBE_LIMIT ==> Content(fs, stem, k) == At(fs, SeqName(stem, k)) + Content(fs, stem, PROBE_LIMIT)
  {
    var m := Min(k, PROBE_LIMIT);
    ArchivedOrder(fs, r, stem, m, m);
    assert OldestFirst(r, stem, m + 1) + [] == OldestFirst(r, stem, m + 1);
    if k > PROBE_LIMIT {
      var top, rest, cur := At(fs, SeqName(stem, k)), OldestFirst(fs, stem, m), At(fs, CurrentName(stem));
      assert top + rest + cur == top + (rest + cur);
    }
  }

  lemma LostPrefix(a: File, b: File)
    ensures a + b == b <==> a == []
  {
    if a == [] {
      assert a + b == b;
    } else {
      assert |a + b| > |b|;
    }
  }

  // ----- Bytes -----

  function ArchiveBytes(fs: Directory, stem: string, k: nat): seq<byte> {
    if k == 0 then [] else Bytes(At(fs, SeqName(stem, k))) + ArchiveBytes(fs, stem, k - 1)
  }

  /** The archives of a stem from number k down to number 1, and then the current file,
      concatenated. */
  function LogBytes(fs: Directory, stem: string, k: nat): seq<byte> {
    ArchiveBytes(fs, stem, k) + Bytes(At(fs, CurrentName(stem)))
  }

  lemma {:induction false} ArchiveBytesAreWrites(fs: Directory, stem: string, k: nat)
    ensures ArchiveBytes(fs, stem, k) == Bytes(OldestFirst(fs, stem, k))
  {
    if k > 0 {
      ArchiveBytesAreWrites(fs, stem, k - 1);
      BytesConcat(At(fs, SeqName(stem, k)), OldestFirst(fs, stem, k - 1));
    }
  }

  lemma LogBytesAreWrites(fs: Directory, stem: string, k: nat)
    ensures LogBytes(fs, stem, k) == Bytes(Content(fs, stem, k))
  {
    ArchiveBytesAreWrites(fs, stem, k);
    BytesConcat(OldestFirst(fs, stem, k), At(fs, CurrentName(stem)));
  }

  // ----- Stems -----

  /** The stems of a configuration: equally long, so that no two share a file name. */
  ghost predicate IsStem(cfg: Config, stem: string) {
    |stem| == |cfg.basename| + (if cfg.rotateByHour then 1 + HOUR_LEN else 0)
  }

  ghost predicate Absent(fs: Directory, stem: string) {
    CurrentName(stem) !in fs && Stacked(fs, stem, 0)
  }

  lemma StemOfHour(cfg: Config, a: Hour, b: Hour)
    ensures Stem(cfg, a) == Stem(cfg, b) <==> !cfg.rotateByHour || a == b
    ensures IsStem(cfg, Stem(cfg, a))
  {
    if cfg.rotateByHour {
      assert Stem(cfg, a)[|cfg.basename| + 1..] == a && Stem(cfg, b)[|cfg.basename| + 1..] == b;
    }
  }

  /** The other stems' files are the same in both directories. */
  ghost predicate ElsewhereSame(fs: Directory, r: Directory, stem: string) {
    forall n: string {:trigger SameFile(fs, r, n)} :: !Owns(stem, n) ==> SameFile(fs, r, n)
  }

  lemma NotOwned(cfg: Config, stem: string, other: string, i: nat)
    requires IsStem(cfg, stem) && IsStem(cfg, other) && stem != other
    ensures !Owns(stem, CurrentName(other)) && !Owns(stem, SeqName(other, i))
  {
    OwnNames(other, i);
  }

  lemma ArchiveStaysHome(fs: Directory, r: Directory, stem: string, m: nat)
    requires Archived(fs, r, stem, m)
    ensures ElsewhereSame(fs, r, stem)
  {
    forall n: string | !Owns(stem, n) ensures SameFile(fs, r, n) {
      OwnNames(stem, 0);
      assert n != CurrentName(stem);
      if Numbered(stem, n, m + 1) {
        var i: nat :| 1 <= i <= m + 1 && n == SeqName(stem, i);
        OwnNames(stem, i);
        assert false;
      }
    }
  }

  lemma ElsewhereTwice(a: Directory, b: Directory, c: Directory, st: string)
    requires ElsewhereSame(a, b, st) && ElsewhereSame(b, c, st)
    ensures ElsewhereSame(a, c, st)
  {
    forall n: string | !Owns(st, n) ensures SameFile(a, c, n) {
      assert SameFile(a, b, n) && SameFile(b, c, n);
    }
  }

  // ----- File sizes -----

  function Limit(cfg: Config): int {
    cfg.maxSizeMB * 1024 * 1024
  }

  /** A file within the size limit, or holding a single write that alone exceeds it. */
  ghost predicate FileSized(cfg: Config, f: File) {
    cfg.maxSizeMB > 0 ==> Size(f) <= Limit(cfg) || |f| == 1
  }

  ghost predicate AllSized(cfg: Config, fs: Directory) {
    forall n {:trigger SizedAt(cfg, fs, n)} :: n in fs ==> SizedAt(cfg, fs, n)
  }

  ghost predicate SizedAt(cfg: Config, fs: Directory, n: string)
    requires n in fs
  {
    FileSized(cfg, fs[n])
  }

  lemma RenameKeepsSized(cfg: Config, fs: Directory, from: string, to: string)
    requires AllSized(cfg, fs)
    ensures AllSized(cfg, Rename(fs, from, to))
  {
    var r := Rename(fs, from, to);
    forall n | n in r ensures SizedAt(cfg, r, n) {
      var n' := if n == to && from in fs then from else n;
      assert SizedAt(cfg, fs, n');
    }
  }

  lemma {:induction false} RenameDownKeepsSized(cfg: Config, fs: Directory, stem: string, i: nat)
    requires AllSized(cfg, fs)
    ensures AllSized(cfg, RenameDown(fs, stem, i))
    decreases i
  {
    if i > 0 {
      RenameKeepsSized(cfg, fs, SeqName(stem, i), SeqName(stem, i + 1));
      RenameDownKeepsSized(cfg, Rename(fs, SeqName(stem, i), SeqName(stem, i + 1)), stem, i - 1);
    }
  }

  lemma UpdateSized(cfg: Config, fs: Directory, n: string, f: File)
    requires AllSized(cfg, fs)
    ensures AllSized(cfg, fs[n := f]) <==> FileSized(cfg, f)
  {
    var r := fs[n := f];
    forall x | x in r && x != n ensures SizedAt(cfg, r, x) {
      assert SizedAt(cfg, fs, x);
    }
    assert SizedAt(cfg, r, n) <==> FileSized(cfg, f);
  }

  lemma ArchiveKeepsSized(cfg: Config, fs: Directory, st: string, m: nat)
    requires AllSized(cfg, fs)
    ensures AllSized(cfg, Archive(fs, st, m)[CurrentName(st) := []])
  {
    RenameDownKeepsSized(cfg, fs, st, m);
    RenameKeepsSized(cfg, RenameDown(fs, st, m), CurrentName(st), SeqName(st, 1));
    UpdateSized(cfg, Archive(fs, st, m), CurrentName(st), []);
  }

  /** The file a write ends up in: an empty one after a rotation within its hour, otherwise
      the file `f` found under the hour's name. */
  lemma AppendedSize(cfg: Config, f: File, p: seq<byte>, sameStem: bool, rotates: bool)
    requires sameStem && !rotates && cfg.maxSizeMB > 0 ==> Size(f) + |p| <= Limit(cfg)
    requires !sameStem ==> rotates
    ensures FileSized(cfg, (if sameStem && rotates then [] else f) + [p]) <==>
            !(cfg.maxSizeMB > 0 && !sameStem && f != [] && Size(f) + |p| > Limit(cfg))
  {
    SizeAppend(f, p);
    if f == [] || (sameStem && rotates) {
      assert [] + [p] == [p];
    }
  }
}
