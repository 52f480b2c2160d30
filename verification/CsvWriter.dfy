/** The rotating CSV writer of capture/writers.py over an arbitrary directory.

    The directory maps file names to the lines they hold. Clock readings are arguments and may
    jump either way; the time stamp in a name and the encoded width of a line are arbitrary
    functions. */
module CsvWriter {
  import opened Options
  import opened Counting

  type Line = string
  type Name = string

  // ---------------------------------------------------------------- file names

  const DIGITS: string := "0123456789"

  function Decimal(n: nat): string {
    if n < 10 then [DIGITS[n]] else Decimal(n / 10) + [DIGITS[n % 10]]
  }

  function Digit(c: char): int {
    c as int - '0' as int
  }

  function Number(s: string): int {
    if s == [] then 0 else 10 * Number(s[..|s| - 1]) + Digit(s[|s| - 1])
  }

  lemma {:induction false} NumberOfDecimal(n: nat)
    ensures Number(Decimal(n)) == n
  {
    if n >= 10 {
      NumberOfDecimal(n / 10);
      assert Decimal(n)[..|Decimal(n)| - 1] == Decimal(n / 10);
    } else {
      assert Decimal(n)[..0] == [];
    }
  }

  /** The names the search for a free one goes through: without a counter, then with 1, 2, ... */
  function Candidate(base: string, i: nat): Name {
    if i == 0 then base + ".csv" else base + "_" + Decimal(i) + ".csv"
  }

  lemma CandidatesDiffer(base: string, i: nat, j: nat)
    requires i != j
    ensures Candidate(base, i) != Candidate(base, j)
  {
    var a, b := Candidate(base, i), Candidate(base, j);
    if i == 0 {
      assert a[|base|] == '.' && b[|base|] == '_';
    } else if j == 0 {
      assert a[|base|] == '_' && b[|base|] == '.';
    } else {
      NumberOfDecimal(i);
      NumberOfDecimal(j);
      assert a[|base| + 1..|a| - 4] == Decimal(i);
      assert b[|base| + 1..|b| - 4] == Decimal(j);
    }
  }

  ghost function Candidates(base: string, n: nat): set<Name> {
    if n == 0 then {} else Candidates(base, n - 1) + {Candidate(base, n - 1)}
  }

  /** As many names as candidates: a directory of n files leaves one of n + 1 candidates free. */
  lemma {:induction false} CandidatesCard(base: string, n: nat)
    ensures |Candidates(base, n)| == n
    ensures forall x :: x in Candidates(base, n) ==> exists i: nat :: i < n && x == Candidate(base, i)
  {
    if n > 0 {
      CandidatesCard(base, n - 1);
      forall i: nat | i < n - 1
        ensures Candidate(base, i) != Candidate(base, n - 1)
      {
        CandidatesDiffer(base, i, n - 1);
      }
    }
  }

  /** The search fails at most as often as there are files. */
  lemma TakenNames(base: string, n: nat, names: set<Name>)
    requires forall j: nat :: j < n ==> Candidate(base, j) in names
    ensures n <= |names|
  {
    hide Candidate;
    CandidatesCard(base, n);
    forall x | x in Candidates(base, n)
      ensures x in names
    {
    }
    SubsetCard(Candidates(base, n), names);
  }

  // ---------------------------------------------------------------- what was written where

  datatype Row = Row(line: Line, time: real)

  /** The history of one file: its name, when it was opened, and its rows. */
  datatype File = File(name: Name, start: real, rows: seq<Row>)

  function LinesOf(rows: seq<Row>): seq<Line> {
    seq(|rows|, i requires 0 <= i < |rows| => rows[i].line)
  }

  function WidthOf(width: Line -> nat, rows: seq<Row>): nat {
    if rows == [] then 0 else WidthOf(width, rows[..|rows| - 1]) + width(rows[|rows| - 1].line)
  }

  function Concat(files: seq<File>): seq<Line> {
    if files == [] then [] else Concat(files[..|files| - 1]) + LinesOf(files[|files| - 1].rows)
  }

  /** The file was under both limits just before row j. */
  ghost predicate UnderLimits(width: Line -> nat, seconds: real, bytes: int, f: File, j: nat)
    requires j < |f.rows|
  {
    && (seconds > 0.0 ==> f.rows[j].time - f.start < seconds)
    && (bytes > 0 ==> WidthOf(width, f.rows[..j]) < bytes)
  }

  ghost predicate WithinLimits(width: Line -> nat, seconds: real, bytes: int, f: File) {
    forall j :: 0 < j < |f.rows| ==> UnderLimits(width, seconds, bytes, f, j)
  }

  lemma WithinLimitsAppend(width: Line -> nat, seconds: real, bytes: int, f: File, r: Row)
    requires WithinLimits(width, seconds, bytes, f)
    requires f.rows != [] ==> (seconds > 0.0 ==> r.time - f.start < seconds) && (bytes > 0 ==> WidthOf(width, f.rows) < bytes)
    ensures WithinLimits(width, seconds, bytes, f.(rows := f.rows + [r]))
    ensures WidthOf(width, f.rows + [r]) == WidthOf(width, f.rows) + width(r.line)
    ensures LinesOf(f.rows + [r]) == LinesOf(f.rows) + [r.line]
  {
    var g := f.(rows := f.rows + [r]);
    assert g.rows[..|f.rows|] == f.rows;
    forall j | 0 < j < |g.rows|
      ensures UnderLimits(width, seconds, bytes, g, j)
    {
      if j < |f.rows| {
        assert UnderLimits(width, seconds, bytes, f, j);
        assert g.rows[..j] == f.rows[..j];
      }
    }
  }

  ghost predicate Complete(width: Line -> nat, seconds: real, bytes: int, f: File) {
    f.rows != [] && WithinLimits(width, seconds, bytes, f)
  }

  /** The file has reached the age or the size limit. */
  ghost predicate Reached(width: Line -> nat, seconds: real, bytes: int, f: File, now: real) {
    (seconds > 0.0 && now - f.start >= seconds) || (bytes > 0 && WidthOf(width, f.rows) >= bytes)
  }

  /** Every file but the last had reached a limit when the next one was created, or was closed. */
  ghost predicate Handovers(width: Line -> nat, seconds: real, bytes: int, files: seq<File>, closed: set<nat>) {
    && (forall i :: i in closed ==> i < |files|)
    && forall i: nat :: i < |files| - 1 ==> i in closed || Reached(width, seconds, bytes, files[i], files[i + 1].start)
  }

  lemma HandoverNew(width: Line -> nat, seconds: real, bytes: int, files: seq<File>, closed: set<nat>, f: File)
    requires Handovers(width, seconds, bytes, files, closed)
    requires files != [] ==> |files| - 1 in closed || Reached(width, seconds, bytes, files[|files| - 1], f.start)
    ensures Handovers(width, seconds, bytes, files + [f], closed)
  {
    hide WidthOf, Reached;
  }

  lemma HandoverAppend(width: Line -> nat, seconds: real, bytes: int, init: seq<File>, f: File, g: File, closed: set<nat>)
    requires Handovers(width, seconds, bytes, init + [f], closed) && g.start == f.start
    ensures Handovers(width, seconds, bytes, init + [g], closed)
  {
    hide WidthOf, Reached;
    var files, files' := init + [f], init + [g];
    forall i: nat | i < |files'| - 1
      ensures i in closed || Reached(width, seconds, bytes, files'[i], files'[i + 1].start)
    {
      assert files'[i] == files[i] && files'[i + 1].start == files[i + 1].start;
    }
  }

  predicate EndsWith(s: string, t: string) {
    |t| <= |s| && s[|s| - |t|..] == t
  }

  lemma CandidateShape(base: string, i: nat)
    ensures base <= Candidate(base, i) && EndsWith(Candidate(base, i), ".csv")
  {
    hide Decimal;
  }

  type Directory = map<Name, seq<Line>>

  /** The directory holds what it held at first and the created files, nothing else. */
  ghost predicate Stored(dir: Directory, initial: Directory, files: seq<File>) {
    && (forall n :: n in initial ==> n in dir && dir[n] == initial[n])
    && (forall i :: 0 <= i < |files| ==> Holds(dir, initial, files[i]))
    && (forall i, j :: 0 <= i < j < |files| ==> files[i].name != files[j].name)
    && (forall n :: n in dir ==> n in initial || exists i :: 0 <= i < |files| && files[i].name == n)
  }

  ghost predicate Holds(dir: Directory, initial: Directory, f: File) {
    f.name in dir && f.name !in initial && dir[f.name] == LinesOf(f.rows)
  }

  /** A new file under a free name. */
  lemma StoredNew(dir: Directory, initial: Directory, files: seq<File>, f: File)
    requires Stored(dir, initial, files) && f.name !in dir && f.rows == []
    ensures Stored(dir[f.name := []], initial, files + [f])
  {
    var dir', files' := dir[f.name := []], files + [f];
    assert LinesOf(f.rows) == [];
    hide LinesOf;
    forall i | 0 <= i < |files'|
      ensures Holds(dir', initial, files'[i])
    {
      assert i < |files| ==> Holds(dir, initial, files[i]);
    }
    forall i | 0 <= i < |files|
      ensures files[i].name != f.name
    {
      assert Holds(dir, initial, files[i]);
    }
    forall n | n in dir' && n !in initial
      ensures exists i :: 0 <= i < |files'| && files'[i].name == n
    {
      CreatedMore(files, f, n);
    }
  }

  lemma CreatedMore(files: seq<File>, f: File, n: Name)
    requires n == f.name || exists i :: 0 <= i < |files| && files[i].name == n
    ensures exists i :: 0 <= i < |files + [f]| && (files + [f])[i].name == n
  {
    var files' := files + [f];
    if n == f.name {
      assert files'[|files|].name == n;
    } else {
      var i :| 0 <= i < |files| && files[i].name == n;
      assert files'[i].name == n;
    }
  }

  /** One more row in the newest file. */
  lemma StoredAppend(dir: Directory, initial: Directory, files: seq<File>, f: File, r: Row)
    requires Stored(dir, initial, files + [f])
    ensures f.name in dir
    ensures Stored(dir[f.name := dir[f.name] + [r.line]], initial, files + [f.(rows := f.rows + [r])])
  {
    var all, all' := files + [f], files + [f.(rows := f.rows + [r])];
    assert Holds(dir, initial, all[|files|]);
    var dir' := dir[f.name := dir[f.name] + [r.line]];
    LinesAppend(f.rows, r);
    hide LinesOf;
    forall i | 0 <= i < |all'|
      ensures Holds(dir', initial, all'[i]) && all'[i].name == all[i].name
    {
      assert Holds(dir, initial, all[i]);
      assert i < |files| ==> all[i].name != all[|files|].name;
    }
    forall n | n in dir' && n !in initial
      ensures exists i :: 0 <= i < |all'| && all'[i].name == n
    {
      var i :| 0 <= i < |all| && all[i].name == n;
      assert all'[i].name == n;
    }
  }

  lemma LinesAppend(rows: seq<Row>, r: Row)
    ensures LinesOf(rows + [r]) == LinesOf(rows) + [r.line]
  {
    assert (rows + [r])[..|rows|] == rows;
  }

  lemma ConcatAppend(files: seq<File>, f: File)
    ensures Concat(files + [f]) == Concat(files) + LinesOf(f.rows)
  {
    assert (files + [f])[..|files|] == files;
  }

  class CsvRotatingWriter {
    const rotateSeconds: real
    const rotateBytes: int
    const stamp: real -> string
    const width: Line -> nat
    var dir: map<Name, seq<Line>>
    var current: Option<Name>
    var fileStart: real
    var bytesWritten: int
    ghost const initial: map<Name, seq<Line>>   // the directory before the first row
    ghost var files: seq<File>                  // the files created, in order
    ghost var written: seq<Line>                // every row written
    ghost var closed: set<nat>                  // the files that were closed by a call of Close

    /** The directory is the initial one plus the created files; their contents, joined in the
        order of creation, are the rows written; each is nonempty and was under both limits
        before each row after its first, and had reached one of them when its successor was
        created, unless it had been closed before. */
    ghost predicate Valid()
      reads this
    {
      && Stored(dir, initial, files)
      && Concat(files) == written
      && (forall i :: 0 <= i < |files| ==> Complete(width, rotateSeconds, rotateBytes, files[i]))
      && (current.Some? ==> files != [] && Open(files[|files| - 1]))
      && Handovers(width, rotateSeconds, rotateBytes, files, closed)
      && (current.None? && files != [] ==> |files| - 1 in closed)
    }

    ghost predicate Open(f: File)
      reads this
    {
      current == Some(f.name) && fileStart == f.start && bytesWritten == WidthOf(width, f.rows)
    }

    constructor (rotateSeconds: real, rotateMb: int, stamp: real -> string, width: Line -> nat, dir: map<Name, seq<Line>>)
      ensures Valid() && files == [] && written == [] && closed == {} && this.dir == dir == initial && current == None
      ensures this.rotateSeconds == rotateSeconds && this.rotateBytes == rotateMb * 1024 * 1024
    {
      this.rotateSeconds, this.rotateBytes := rotateSeconds, rotateMb * 1024 * 1024;
      this.stamp, this.width := stamp, width;
      this.dir, initial := dir, dir;
      current, fileStart, bytesWritten := None, 0.0, 0;
      files, written, closed := [], [], {};
    }

    predicate ShouldRotate(now: real)
      reads this
    {
      || current == None
      || (rotateSeconds > 0.0 && now - fileStart >= rotateSeconds)
      || (rotateBytes > 0 && bytesWritten >= rotateBytes)
    }

    /** The first candidate name that is free; the search ends because the directory is finite. */
    method FreeName(base: string) returns (name: Name)
      ensures name !in dir
      ensures exists i: nat :: name == Candidate(base, i) && forall j: nat :: j < i ==> Candidate(base, j) in dir
      ensures base <= name && EndsWith(name, ".csv") && (base + ".csv" !in dir ==> name == base + ".csv")
    {
      hide Decimal;
      name := base + ".csv";
      var counter := 1;
      while name in dir
        invariant counter >= 1 && name == Candidate(base, counter - 1)
        invariant forall j: nat :: j < counter - 1 ==> Candidate(base, j) in dir
        decreases |dir| - (counter - 1)
      {
        name := base + "_" + Decimal(counter) + ".csv";
        counter := counter + 1;
        TakenNames(base, counter - 1, dir.Keys);
      }
      CandidateShape(base, counter - 1);
    }

    method CloseCurrent()
      modifies `current, `fileStart, `bytesWritten
      ensures current == None
    {
      if current.Some? {
        current, fileStart, bytesWritten := None, 0.0, 0;
      }
    }

    /** Writes one row, into a new file when a limit is reached. No other file changes. */
    method Write(line: Line, now: real)
      requires Valid()
      modifies this
      ensures Valid() && written == old(written) + [line]
      ensures current.Some? && old(dir).Keys <= dir.Keys
      ensures forall n :: n in old(dir) && current != Some(n) ==> dir[n] == old(dir)[n]
      ensures closed == old(closed) && (old(current).Some? ==> old(files) != [])
      ensures if old(current).None? || Reached(width, rotateSeconds, rotateBytes, old(files)[old(|files|) - 1], now)
              then |files| == old(|files|) + 1 && files[..old(|files|)] == old(files) && current.value !in old(dir)
                   && files[|files| - 1] == File(current.value, now, [Row(line, now)])
                   && "traffic_" + stamp(now) <= current.value && EndsWith(current.value, ".csv")
              else |files| == old(|files|) && current == old(current)
                   && dir == old(dir)[current.value := old(dir)[current.value] + [line]]
    {
      hide Stored, WithinLimits, Concat, WidthOf, Handovers;
      if ShouldRotate(now) {
        CloseCurrent();
        OpenNewFile(now);
      }
      Append(line, now);
    }

    /** Creates an empty file under a free name. */
    method OpenNewFile(now: real)
      requires Stored(dir, initial, files) && Concat(files) == written
      requires forall i :: 0 <= i < |files| ==> Complete(width, rotateSeconds, rotateBytes, files[i])
      requires Handovers(width, rotateSeconds, rotateBytes, files, closed)
      requires files != [] ==> |files| - 1 in closed || Reached(width, rotateSeconds, rotateBytes, files[|files| - 1], now)
      modifies `dir, `current, `fileStart, `bytesWritten, `files
      ensures Stored(dir, initial, files) && Concat(files) == written
      ensures Handovers(width, rotateSeconds, rotateBytes, files, closed)
      ensures |files| == old(|files|) + 1 && files[..old(|files|)] == old(files) && Open(files[old(|files|)])
      ensures files[old(|files|)] == File(current.value, now, [])
      ensures WithinLimits(width, rotateSeconds, rotateBytes, files[old(|files|)])
      ensures current.value !in old(dir) && dir == old(dir)[current.value := []]
      ensures "traffic_" + stamp(now) <= current.value && EndsWith(current.value, ".csv")
    {
      hide Stored, WithinLimits, Concat, WidthOf, Handovers, Complete, Reached, Candidate;
      var name := FreeName("traffic_" + stamp(now));
      ghost var f := File(name, now, []);
      StoredNew(dir, initial, files, f);
      HandoverNew(width, rotateSeconds, rotateBytes, files, closed, f);
      ConcatAppend(files, f);
      EmptyFile(width, rotateSeconds, rotateBytes, f);
      current, fileStart, bytesWritten := Some(name), now, 0;
      dir := dir[name := []];
      files := files + [f];
    }

    /** Adds a row to the current file, which is new or under its limits. */
    method Append(line: Line, now: real)
      requires Stored(dir, initial, files) && Concat(files) == written
      requires files != [] && Open(files[|files| - 1])
      requires forall i :: 0 <= i < |files| - 1 ==> Complete(width, rotateSeconds, rotateBytes, files[i])
      requires WithinLimits(width, rotateSeconds, rotateBytes, files[|files| - 1])
      requires files[|files| - 1].rows != [] ==> !ShouldRotate(now)
      requires Handovers(width, rotateSeconds, rotateBytes, files, closed)
      modifies `dir, `bytesWritten, `files, `written
      ensures Valid() && written == old(written) + [line]
      ensures current.value in old(dir) && dir == old(dir)[current.value := old(dir)[current.value] + [line]]
      ensures |files| == old(|files|) && files[..|files| - 1] == old(files)[..|files| - 1]
      ensures files[|files| - 1] == old(files)[|files| - 1].(rows := old(files)[|files| - 1].rows + [Row(line, now)])
    {
      hide Stored, WithinLimits, Concat, WidthOf, Handovers;
      ghost var init, f := files[..|files| - 1], files[|files| - 1];
      ghost var g := f.(rows := f.rows + [Row(line, now)]);
      assert files == init + [f];
      StoredAppend(dir, initial, init, f, Row(line, now));
      WithinLimitsAppend(width, rotateSeconds, rotateBytes, f, Row(line, now));
      HandoverAppend(width, rotateSeconds, rotateBytes, init, f, g, closed);
      ConcatAppend(init, f);
      ConcatAppend(init, g);
      assert Concat(init) + (LinesOf(f.rows) + [line]) == written + [line];
      dir := dir[current.value := dir[current.value] + [line]];
      bytesWritten := bytesWritten + width(line);
      files := init + [g];
      written := written + [line];
    }

    method Close()
      requires Valid()
      modifies `current, `fileStart, `bytesWritten, `closed
      ensures Valid() && current == None
      ensures closed == if old(current).Some? then old(closed) + {|files| - 1} else old(closed)
    {
      hide Stored, WithinLimits, Concat, WidthOf;
      if current.Some? {
        closed := closed + {|files| - 1};
      }
      CloseCurrent();
    }
  }

  lemma EmptyFile(width: Line -> nat, seconds: real, bytes: int, f: File)
    requires f.rows == []
    ensures WithinLimits(width, seconds, bytes, f) && WidthOf(width, f.rows) == 0 && LinesOf(f.rows) == []
  {
  }
}
