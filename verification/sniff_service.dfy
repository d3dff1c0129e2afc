/**
 * The `sniff` command: turns the two engines' candidates into the rows of
 * the slot table. YM rows whose start has passed are dropped; ZMYY rows
 * without a window are dropped, the others have their window rewritten to
 * a start time of the current year and are dropped once it has passed.
 */
module Service {
  import opened Domain
  import opened Strings

  /** A row of the slot table: channel, city, hospital, vaccine, start time and seckill id. */
  datatype Row = Row(channel: string, city: string, hospital: string, vaccine: string, seckillTime: string, seckillId: string)

  function RowOf(c: Candidate): Row
  {
    Row(c.source, c.city, c.hospital, c.vaccine, c.startTime, c.seckill)
  }

  /** The slot table the command fills and prints. */
  class SeckillTable {
    var rows: seq<Row>

    constructor ()
      ensures rows == []
    {
      rows := [];
    }

    method AddRow(row: Row)
      modifies this
      ensures rows == old(rows) + [row]
    {
      rows := rows + [row];
    }
  }

  // -------------------------------------------------------------------- YM

  /** The YM rows: every candidate whose start time is not before `now`, in order. */
  function YmRows(candidates: seq<Candidate>, nowSec: int, toEpoch: string -> int): seq<Row>
  {
    if |candidates| == 0 then []
    else
      (if toEpoch(candidates[0].startTime) < nowSec then [] else [RowOf(candidates[0])]) +
      YmRows(candidates[1..], nowSec, toEpoch)
  }

  /** A YM row is shown exactly for a candidate that has not started yet, unchanged. */
  lemma {:induction false} YmRowsMembership(candidates: seq<Candidate>, nowSec: int, toEpoch: string -> int, row: Row)
    ensures row in YmRows(candidates, nowSec, toEpoch) <==>
      exists c :: c in candidates && toEpoch(c.startTime) >= nowSec && row == RowOf(c)
    ensures |YmRows(candidates, nowSec, toEpoch)| <= |candidates|
  {
    if |candidates| > 0 {
      YmRowsMembership(candidates[1..], nowSec, toEpoch, row);
      assert forall c :: c in candidates <==> c == candidates[0] || c in candidates[1..];
    }
  }

  /** The YM loop of the command. */
  method AddYmRows(table: SeckillTable, candidates: seq<Candidate>, nowSec: int, toEpoch: string -> int)
    modifies table
    ensures table.rows == old(table.rows) + YmRows(candidates, nowSec, toEpoch)
  {
    var i := 0;
    while i < |candidates|
      invariant 0 <= i <= |candidates|
      invariant table.rows + YmRows(candidates[i..], nowSec, toEpoch) ==
                old(table.rows) + YmRows(candidates, nowSec, toEpoch)
    {
      assert candidates[i..][1..] == candidates[i + 1..];
      var c := candidates[i];
      if toEpoch(c.startTime) < nowSec {
        i := i + 1;
        continue;
      }
      table.AddRow(Row(c.source, c.city, c.hospital, c.vaccine, c.startTime, c.seckill));
      i := i + 1;
    }
    assert candidates[i..] == [];
  }

  // ------------------------------------------------------------------ ZMYY

  /** The window text of a product that cannot be booked. */
  const Unavailable := "暂无"

  /** The separator between the opening and the closing of a window. */
  const WindowSep := " 至 "

  /** The fixed window the command splits in place of each product's own. */
  const FixedWindow := "12-03 17:05 至 12-03 17:10"

  /** A window `a 至 b` whose halves do not hold `至` splits into exactly its two halves. */
  lemma WindowSplit(a: string, b: string)
    requires '至' !in a && '至' !in b
    ensures Split(a + WindowSep + b, WindowSep) == [a, b]
  {
    var t := a + WindowSep[..2];
    forall i | 0 <= i <= |t| - 3
      ensures !OccursAt(t, WindowSep, i)
    {
      assert t[i + 1] != '至';
      assert t[i..i + 3][1] == t[i + 1];
    }
    forall i | 0 <= i <= |b| - 3
      ensures !OccursAt(b, WindowSep, i)
    {
      assert b[i + 1] != WindowSep[1];
      assert b[i..i + 3][1] == b[i + 1];
    }
    SplitOnce(a, WindowSep, b);
  }

  /** The fixed window splits into its opening `12-03 17:05` and closing `12-03 17:10`. */
  lemma FixedWindowSplit()
    ensures Split(FixedWindow, WindowSep) == ["12-03 17:05", "12-03 17:10"]
  {
    var a, b := "12-03 17:05", "12-03 17:10";
    assert FixedWindow == a + WindowSep + b;
    WindowSplit(a, b);
  }

  /**
   * The start time the pieces of a split window give: the year, the
   * window's opening, and zero seconds; nothing unless there are exactly
   * two pieces.
   */
  function Opening(parts: seq<string>, year: nat): (t: Option<string>)
    ensures t.Some? <==> |parts| == 2
    ensures t.Some? ==> HasPrefix(t.value, Decimal(year) + "-")
  {
    if |parts| == 2 then Some(Decimal(year) + "-" + parts[0] + ":00") else None
  }

  /** A candidate whose start time is `Unavailable` or no window keeps it; otherwise it gets the opening. */
  function Stamped(c: Candidate, year: nat): Candidate
  {
    if c.startTime == Unavailable then c
    else match Opening(Split(c.startTime, WindowSep), year)
      case None => c
      case Some(t) => c.(startTime := t)
  }

  /**
   * The row of one ZMYY candidate given the pieces of the window that is
   * split: none for an unavailable product, none when the opening has
   * passed, and otherwise the candidate with its rewritten start time.
   */
  function ZmRowWith(c: Candidate, parts: seq<string>, year: nat, nowSec: int, toEpoch: string -> int): Option<Row>
  {
    if c.startTime == Unavailable then None
    else match Opening(parts, year)
      case None => Some(RowOf(c))
      case Some(t) => if toEpoch(t) < nowSec then None else Some(RowOf(c.(startTime := t)))
  }

  /** The row as written: every candidate's window is taken to be the fixed one. */
  function ZmRowAsWritten(c: Candidate, year: nat, nowSec: int, toEpoch: string -> int): Option<Row>
  {
    ZmRowWith(c, Split(FixedWindow, WindowSep), year, nowSec, toEpoch)
  }

  /** The row as intended: the candidate's own window is split. */
  function ZmRow(c: Candidate, year: nat, nowSec: int, toEpoch: string -> int): Option<Row>
  {
    ZmRowWith(c, Split(c.startTime, WindowSep), year, nowSec, toEpoch)
  }

  lemma FixedPiecesOpening(year: nat)
    ensures Opening(["12-03 17:05", "12-03 17:10"], year) == Some(Decimal(year) + "-12-03 17:05:00")
  {
    assert Decimal(year) + "-" + "12-03 17:05" + ":00" == Decimal(year) + "-12-03 17:05:00";
  }

  /** The fixed window always opens at 17:05 on the third of December. */
  lemma FixedOpening(year: nat)
    ensures Opening(Split(FixedWindow, WindowSep), year) == Some(Decimal(year) + "-12-03 17:05:00")
  {
    FixedWindowSplit();
    FixedPiecesOpening(year);
  }

  /**
   * As written, every shown ZMYY row starts at 17:05 on the third of
   * December of the current year, whatever the product's own window, and
   * either every available product is shown or none is.
   */
  lemma FixedWindowRows(c: Candidate, year: nat, nowSec: int, toEpoch: string -> int)
    ensures var t := Decimal(year) + "-12-03 17:05:00";
      ZmRowAsWritten(c, year, nowSec, toEpoch) ==
        if c.startTime == Unavailable || toEpoch(t) < nowSec then None else Some(RowOf(c.(startTime := t)))
  {
    FixedOpening(year);
  }

  /**
   * As intended, a product whose window is `a 至 b` is shown with the start
   * time `<year>-a:00`, unless that time has passed.
   */
  lemma ZmRowOfWindow(c: Candidate, a: string, b: string, year: nat, nowSec: int, toEpoch: string -> int)
    requires c.startTime == a + WindowSep + b && '至' !in a && '至' !in b
    ensures var t := Decimal(year) + "-" + a + ":00";
      ZmRow(c, year, nowSec, toEpoch) == if toEpoch(t) < nowSec then None else Some(RowOf(c.(startTime := t)))
  {
    WindowSplit(a, b);
    assert |c.startTime| >= 3;
  }

  /** Two start times built from the same year are equal only when their openings are. */
  lemma OpeningsDiffer(d: string, a: string, a': string)
    requires a != a'
    ensures d + "-" + a + ":00" != d + "-" + a' + ":00"
  {
    var t, t' := d + "-" + a + ":00", d + "-" + a' + ":00";
    assert |t| == |d| + |a| + 4 && |t'| == |d| + |a'| + 4;
    if |a| == |a'| {
      assert t[|d| + 1..|d| + 1 + |a|] == a;
      assert t'[|d| + 1..|d| + 1 + |a|] == a';
    }
  }

  /** As written, an available product is shown at the fixed opening once that has not passed. */
  lemma FixedWindowShown(c: Candidate, year: nat, nowSec: int, toEpoch: string -> int)
    requires c.startTime != Unavailable && toEpoch(Decimal(year) + "-12-03 17:05:00") >= nowSec
    ensures ZmRowAsWritten(c, year, nowSec, toEpoch) == Some(RowOf(c.(startTime := Decimal(year) + "-12-03 17:05:00")))
  {
    FixedWindowRows(c, year, nowSec, toEpoch);
  }

  /** Any other opening gives another start time than the fixed one. */
  lemma OtherOpening(d: string, a: string)
    requires a != "12-03 17:05"
    ensures d + "-12-03 17:05:00" != d + "-" + a + ":00"
  {
    OpeningsDiffer(d, a, "12-03 17:05");
    assert d + "-" + "12-03 17:05" + ":00" == d + "-12-03 17:05:00";
  }

  /**
   * The input that shows it: a product whose window `a 至 b` opens at any
   * other time than 17:05 on the third of December (say `01-15 09:00 至
   * 01-15 10:00`) is shown, as written, with the fixed start time, and as
   * intended with its own opening.
   */
  lemma FixedWindowMasksDate(c: Candidate, a: string, b: string, year: nat, nowSec: int, toEpoch: string -> int)
    requires c.startTime == a + WindowSep + b && '至' !in a && '至' !in b
    requires a != "12-03 17:05"
    requires toEpoch(Decimal(year) + "-12-03 17:05:00") >= nowSec
    requires toEpoch(Decimal(year) + "-" + a + ":00") >= nowSec
    ensures ZmRowAsWritten(c, year, nowSec, toEpoch) == Some(RowOf(c.(startTime := Decimal(year) + "-12-03 17:05:00")))
    ensures ZmRow(c, year, nowSec, toEpoch) == Some(RowOf(c.(startTime := Decimal(year) + "-" + a + ":00")))
    ensures ZmRowAsWritten(c, year, nowSec, toEpoch) != ZmRow(c, year, nowSec, toEpoch)
  {
    FixedWindowShown(c, year, nowSec, toEpoch);
    ZmRowOfWindow(c, a, b, year, nowSec, toEpoch);
    OtherOpening(Decimal(year), a);
  }

  /** The rows an optional row puts in the table. */
  function Shown(r: Option<Row>): seq<Row>
  {
    match r
    case Some(row) => [row]
    case None => []
  }

  /** The ZMYY rows as intended, in candidate order. */
  function ZmRows(candidates: seq<Candidate>, year: nat, nowSec: int, toEpoch: string -> int): seq<Row>
  {
    if |candidates| == 0 then []
    else
      Shown(ZmRow(candidates[0], year, nowSec, toEpoch)) +
      ZmRows(candidates[1..], year, nowSec, toEpoch)
  }

  /** A ZMYY row is shown exactly for a candidate whose row exists, and never for an unavailable one. */
  lemma {:induction false} ZmRowsMembership(candidates: seq<Candidate>, year: nat, nowSec: int, toEpoch: string -> int, row: Row)
    ensures row in ZmRows(candidates, year, nowSec, toEpoch) <==>
      exists c :: c in candidates && ZmRow(c, year, nowSec, toEpoch) == Some(row)
    ensures row in ZmRows(candidates, year, nowSec, toEpoch) ==>
      exists c :: c in candidates && c.startTime != Unavailable && row == RowOf(Stamped(c, year))
  {
    if |candidates| > 0 {
      ZmRowsMembership(candidates[1..], year, nowSec, toEpoch, row);
      assert forall c :: c in candidates <==> c == candidates[0] || c in candidates[1..];
    }
  }

  /** What one candidate does in the loop: its rewrite and its row, by the number of pieces of its window. */
  lemma ZmStep(c: Candidate, year: nat, nowSec: int, toEpoch: string -> int)
    requires c.startTime != Unavailable
    ensures var parts := Split(c.startTime, WindowSep);
      var t := Decimal(year) + "-" + parts[0] + ":00";
      (|parts| == 2 ==>
        (Stamped(c, year) == c.(startTime := t) &&
         ZmRow(c, year, nowSec, toEpoch) == if toEpoch(t) < nowSec then None else Some(RowOf(c.(startTime := t))))) &&
      (|parts| != 2 ==> Stamped(c, year) == c && ZmRow(c, year, nowSec, toEpoch) == Some(RowOf(c)))
  {
  }

  /** One more candidate's row added to the table keeps the loop's account of the rows. */
  lemma ZmRowsNext(original: seq<Candidate>, i: nat, year: nat, nowSec: int, toEpoch: string -> int,
                   base: seq<Row>, rows: seq<Row>, row: Option<Row>)
    requires i < |original| && row == ZmRow(original[i], year, nowSec, toEpoch)
    requires rows + ZmRows(original[i..], year, nowSec, toEpoch) == base + ZmRows(original, year, nowSec, toEpoch)
    ensures (rows + Shown(row)) + ZmRows(original[i + 1..], year, nowSec, toEpoch) ==
      base + ZmRows(original, year, nowSec, toEpoch)
  {
    var rest := original[i..];
    assert rest[0] == original[i] && rest[1..] == original[i + 1..];
    var tail := ZmRows(rest[1..], year, nowSec, toEpoch);
    assert ZmRows(rest, year, nowSec, toEpoch) == Shown(row) + tail;
    assert rows + (Shown(row) + tail) == (rows + Shown(row)) + tail;
  }

  /** Once every candidate has been through the loop, the table holds exactly the ZMYY rows after the earlier ones. */
  lemma ZmRowsDone(original: seq<Candidate>, year: nat, nowSec: int, toEpoch: string -> int, base: seq<Row>, rows: seq<Row>)
    requires rows + ZmRows(original[|original|..], year, nowSec, toEpoch) == base + ZmRows(original, year, nowSec, toEpoch)
    ensures rows == base + ZmRows(original, year, nowSec, toEpoch)
  {
    assert original[|original|..] == [];
    assert rows + [] == rows;
  }

  /**
   * One ZMYY candidate of the command's loop: nothing for an unavailable
   * product; otherwise the start time is rewritten from the window when it
   * splits in two, and the row is dropped if that time has passed.
   */
  method StampRow(c: Candidate, year: nat, nowSec: int, toEpoch: string -> int)
    returns (stamped: Candidate, rewritten: bool, row: Option<Row>)
    ensures stamped == Stamped(c, year)
    ensures !rewritten ==> stamped == c
    ensures row == ZmRow(c, year, nowSec, toEpoch)
  {
    stamped, rewritten, row := c, false, None;
    if c.startTime == Unavailable {
      return;
    }
    ZmStep(c, year, nowSec, toEpoch);
    var parts := Split(c.startTime, WindowSep);
    if |parts| == 2 {
      stamped, rewritten := c.(startTime := Decimal(year) + "-" + parts[0] + ":00"), true;
      if toEpoch(stamped.startTime) < nowSec {
        return;
      }
    }
    row := Some(Row(stamped.source, stamped.city, stamped.hospital, stamped.vaccine, stamped.startTime, stamped.seckill));
  }

  /** One candidate of the ZMYY loop: its stamped form, and its row (if any) added to the table. */
  method AddStamped(table: SeckillTable, c: Candidate, year: nat, nowSec: int, toEpoch: string -> int)
    returns (stamped: Candidate, rewritten: bool)
    modifies table
    ensures stamped == Stamped(c, year)
    ensures !rewritten ==> stamped == c
    ensures table.rows == old(table.rows) + Shown(ZmRow(c, year, nowSec, toEpoch))
  {
    var row;
    stamped, rewritten, row := StampRow(c, year, nowSec, toEpoch);
    if row.Some? {
      table.AddRow(row.value);
    } else {
      assert table.rows + Shown(row) == table.rows;
    }
  }

  /** The body of the ZMYY loop for the candidate at `i`, carrying the loop's account forward. */
  method StampAt(table: SeckillTable, candidates: array<Candidate>, i: nat, year: nat, nowSec: int, toEpoch: string -> int,
                 ghost original: seq<Candidate>, ghost base: seq<Row>)
    requires i < candidates.Length == |original|
    requires candidates[..] == Rewritten((c: Candidate) => Stamped(c, year), original[..i]) + original[i..]
    requires table.rows + ZmRows(original[i..], year, nowSec, toEpoch) == base + ZmRows(original, year, nowSec, toEpoch)
    modifies table, candidates
    ensures candidates[..] == Rewritten((c: Candidate) => Stamped(c, year), original[..i + 1]) + original[i + 1..]
    ensures table.rows + ZmRows(original[i + 1..], year, nowSec, toEpoch) == base + ZmRows(original, year, nowSec, toEpoch)
  {
    ghost var before := candidates[..];
    RewriteNext((c: Candidate) => Stamped(c, year), original, i, before, Stamped(original[i], year));
    ZmRowsNext(original, i, year, nowSec, toEpoch, base, table.rows, ZmRow(original[i], year, nowSec, toEpoch));
    var stamped, rewritten := AddStamped(table, candidates[i], year, nowSec, toEpoch);
    if rewritten {
      candidates[i] := stamped;
    } else {
      UpdateSame(before, i, stamped);
    }
  }

  /** The ZMYY loop of the command, rewriting each candidate's start time in place before filtering it. */
  method AddZmRows(table: SeckillTable, candidates: array<Candidate>, year: nat, nowSec: int, toEpoch: string -> int)
    modifies table, candidates
    ensures table.rows == old(table.rows) + ZmRows(old(candidates[..]), year, nowSec, toEpoch)
    ensures candidates[..] == Rewritten((c: Candidate) => Stamped(c, year), old(candidates[..]))
  {
    ghost var original := candidates[..];
    ghost var base := table.rows;
    var i := 0;
    assert original[0..] == original;
    assert original[..0] == [];
    while i < candidates.Length
      invariant 0 <= i <= candidates.Length
      invariant candidates[..] == Rewritten((c: Candidate) => Stamped(c, year), original[..i]) + original[i..]
      invariant table.rows + ZmRows(original[i..], year, nowSec, toEpoch) == base + ZmRows(original, year, nowSec, toEpoch)
    {
      StampAt(table, candidates, i, year, nowSec, toEpoch, original, base);
      i := i + 1;
    }
    ZmRowsDone(original, year, nowSec, toEpoch, base, table.rows);
    assert original[..i] == original && original[i..] == [];
    assert candidates[..] == Rewritten((c: Candidate) => Stamped(c, year), original) + [];
  }


  // --------------------------------------------------------------- command

  /**
   * The `sniff` command, given the outcomes of the YM scan and of the ZMYY
   * scan: either scan's error ends the command with that error and nothing
   * is printed; otherwise the table holds the YM rows, then the ZMYY rows.
   */
  method SniffService(ym: Result<seq<Candidate>>, zm: Result<seq<Candidate>>, year: nat,
                      ymNowSec: int, zmNowSec: int, toEpoch: string -> int)
    returns (r: Result<seq<Row>>)
    ensures ym.Failure? ==> r == Failure(ym.error)
    ensures ym.Success? && zm.Failure? ==> r == Failure(zm.error)
    ensures ym.Success? && zm.Success? ==>
      r == Success(YmRows(ym.value, ymNowSec, toEpoch) + ZmRows(zm.value, year, zmNowSec, toEpoch))
  {
    var table := new SeckillTable();
    if ym.Failure? {
      return Failure(ym.error);
    }
    AddYmRows(table, ym.value, ymNowSec, toEpoch);
    assert table.rows == YmRows(ym.value, ymNowSec, toEpoch);
    if zm.Failure? {
      return Failure(zm.error);
    }
    var zmRows := new Candidate[|zm.value|](k requires 0 <= k < |zm.value| => zm.value[k]);
    assert zmRows[..] == zm.value;
    AddZmRows(table, zmRows, year, zmNowSec, toEpoch);
    return Success(table.rows);
  }

  /**
   * The table never shows a YM slot that has started, nor an unavailable
   * ZMYY product: the YM rows come first and each is an upcoming YM
   * candidate; every later row comes from an available ZMYY candidate.
   */
  lemma TableRows(ym: seq<Candidate>, zm: seq<Candidate>, year: nat, ymNowSec: int, zmNowSec: int, toEpoch: string -> int, k: nat)
    requires k < |YmRows(ym, ymNowSec, toEpoch) + ZmRows(zm, year, zmNowSec, toEpoch)|
    ensures var rows := YmRows(ym, ymNowSec, toEpoch) + ZmRows(zm, year, zmNowSec, toEpoch);
      var n := |YmRows(ym, ymNowSec, toEpoch)|;
      (k < n ==> exists c :: c in ym && toEpoch(c.startTime) >= ymNowSec && rows[k] == RowOf(c)) &&
      (k >= n ==> exists c :: c in zm && c.startTime != Unavailable && rows[k] == RowOf(Stamped(c, year)))
  {
    var ymRows, zmRows := YmRows(ym, ymNowSec, toEpoch), ZmRows(zm, year, zmNowSec, toEpoch);
    if k < |ymRows| {
      YmRowsMembership(ym, ymNowSec, toEpoch, (ymRows + zmRows)[k]);
    } else {
      assert (ymRows + zmRows)[k] == zmRows[k - |ymRows|];
      ZmRowsMembership(zm, year, zmNowSec, toEpoch, zmRows[k - |ymRows|]);
    }
  }
}
