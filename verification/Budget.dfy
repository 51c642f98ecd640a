// The byte budget over the resource files a comparison retains
// (internal/diff/diff.go): one budget for two loads, in 64-bit arithmetic.
module Budget {

  newtype int64 = x: int | -0x8000_0000_0000_0000 <= x < 0x8000_0000_0000_0000

  const MAX_RESOURCE_BYTES: int64 := 0x2000_0000

  /** A manifest row as the loader meets it. listed: everything it checks before it
      reads; succeeded: the row's status is ok; size: the bytes in the file; admitted:
      everything it checks about what it read. */
  datatype Row = Row(listed: bool, succeeded: bool, selected: bool, size: nat, admitted: bool)

  datatype Error = InvalidDump | CollectionTooLarge

  datatype Limit = Limit(bytes: int64, tooLarge: Error)

  /** resourceReadLimit */
  function ResourceReadLimit(byteBudget: int64, loadedBytes: int64): (limit: Limit)
    requires 0 <= loadedBytes
    ensures 0 <= limit.bytes <= 0x2000_0000
    ensures byteBudget >= 0 && loadedBytes <= byteBudget ==> limit.bytes <= byteBudget - loadedBytes
    ensures limit.bytes < 0x2000_0000 ==> limit.bytes as int + loadedBytes as int == byteBudget as int || limit.bytes == 0
    ensures byteBudget >= 0 ==> (limit.bytes == 0 <==> loadedBytes >= byteBudget)
    ensures limit.tooLarge == CollectionTooLarge <==>
      byteBudget >= 0 && byteBudget as int - loadedBytes as int < 0x2000_0000
  {
    if byteBudget < 0 then Limit(MAX_RESOURCE_BYTES, InvalidDump)
    else if loadedBytes >= byteBudget then Limit(0, CollectionTooLarge)
    else
      var remaining := byteBudget - loadedBytes;
      if remaining < MAX_RESOURCE_BYTES then Limit(remaining, CollectionTooLarge) else Limit(MAX_RESOURCE_BYTES, InvalidDump)
  }

  // ----------------------------------------------------------- one load

  /** The row's file is read and its bytes are retained. */
  predicate Reads(row: Row) {
    row.succeeded && row.selected
  }

  /** The bytes a load retains. */
  function Total(rows: seq<Row>): nat {
    if rows == [] then 0
    else
      var last := rows[|rows| - 1];
      Total(rows[..|rows| - 1]) + if Reads(last) then last.size else 0
  }

  predicate Sound(row: Row) {
    row.listed && (row.succeeded ==> row.admitted && (row.selected ==> row.size <= MAX_RESOURCE_BYTES as nat))
  }

  /** Every file read fits into what the budget has left when its turn comes, and
      something is left. */
  predicate Fits(rows: seq<Row>, budget: int) {
    rows != [] ==>
      var last := rows[|rows| - 1];
      && Fits(rows[..|rows| - 1], budget)
      && (Reads(last) ==> Total(rows[..|rows| - 1]) < budget && Total(rows) <= budget)
  }

  /** Files that hold anything fit exactly when their total does. */
  lemma {:induction false} FitsIffTotal(rows: seq<Row>, budget: nat)
    requires forall r :: r in rows && Reads(r) ==> r.size > 0
    ensures Fits(rows, budget) <==> Total(rows) <= budget
  {
    if rows != [] {
      var n := |rows| - 1;
      assert forall r :: r in rows[..n] ==> r in rows;
      assert rows[n] in rows;
      FitsIffTotal(rows[..n], budget);
    }
  }

  lemma {:induction false} FitsWithin(rows: seq<Row>, budget: nat)
    requires Fits(rows, budget)
    ensures Total(rows) <= budget
  {
    if rows != [] {
      FitsWithin(rows[..|rows| - 1], budget);
    }
  }

  lemma {:induction false} FitsPrefix(rows: seq<Row>, n: nat, budget: int)
    requires n <= |rows| && Fits(rows, budget)
    ensures Fits(rows[..n], budget)
    decreases |rows|
  {
    if n == |rows| {
      assert rows[..n] == rows;
    } else {
      FitsPrefix(rows[..|rows| - 1], n, budget);
      assert rows[..|rows| - 1][..n] == rows[..n];
    }
  }

  datatype Loaded = Loaded(resourceBytes: int64) | Failed(error: Error)

  /** What a load accepts. */
  predicate Acceptable(rows: seq<Row>, byteBudget: int64) {
    (forall r :: r in rows ==> Sound(r)) && (byteBudget >= 0 ==> Fits(rows, byteBudget as int))
  }

  /** One file read: the limit it was read with, and the bytes retained before it. */
  datatype Reading = Reading(limit: int64, retained: int64)

  /** No read may bring in more than what remains of the budget. */
  predicate WithinBudget(reading: Reading, byteBudget: int64) {
    && 0 < reading.limit <= MAX_RESOURCE_BYTES
    && (byteBudget >= 0 ==> 0 <= reading.retained <= byteBudget && reading.limit <= byteBudget - reading.retained)
  }

  /** The row loop of loadDumpWithBudgetOptions and the files it read. It accepts
      exactly the acceptable manifests, and what it retains never exceeds the budget. */
  method LoadDumpWithBudget(rows: seq<Row>, byteBudget: int64) returns (loaded: Loaded, readings: seq<Reading>)
    ensures loaded.Loaded? <==> Acceptable(rows, byteBudget)
    ensures loaded.Loaded? ==> forall r :: r in rows ==> r.listed && (r.succeeded ==> r.admitted)
    ensures loaded == Failed(CollectionTooLarge) ==> byteBudget >= 0 && !Fits(rows, byteBudget as int)
    ensures loaded.Loaded? ==>
      loaded.resourceBytes as int == if byteBudget >= 0 then Total(rows) else 0
    ensures loaded.Loaded? && byteBudget >= 0 ==> 0 <= loaded.resourceBytes <= byteBudget
    ensures forall r :: r in readings ==> WithinBudget(r, byteBudget)
  {
    var loadedBytes: int64 := 0;
    readings := [];
    for i := 0 to |rows|
      invariant Acceptable(rows[..i], byteBudget)
      invariant loadedBytes as int == if byteBudget >= 0 then Total(rows[..i]) else 0
      invariant byteBudget >= 0 ==> 0 <= loadedBytes <= byteBudget
      invariant forall r :: r in readings ==> WithinBudget(r, byteBudget)
    {
      var row := rows[i];
      RowDecides(rows, i, byteBudget);
      if !row.listed {
        return Failed(InvalidDump), readings;
      }
      if row.succeeded {
        if row.selected {
          var limit := ResourceReadLimit(byteBudget, loadedBytes);
          if limit.bytes == 0 {
            return Failed(CollectionTooLarge), readings;
          }
          readings := readings + [Reading(limit.bytes, loadedBytes)];
          if row.size > limit.bytes as int {
            return Failed(limit.tooLarge), readings;
          }
          var bytesRead := row.size as int64;
          if byteBudget >= 0 {
            if bytesRead > byteBudget - loadedBytes {
              return Failed(CollectionTooLarge), readings;
            }
            loadedBytes := loadedBytes + bytesRead;
          }
        }
        if !row.admitted {
          return Failed(InvalidDump), readings;
        }
      }
    }
    assert rows[..|rows|] == rows;
    return Loaded(loadedBytes), readings;
  }

  /** After an acceptable beginning the next row decides: if it fails, so does all. */
  lemma RowDecides(rows: seq<Row>, i: nat, byteBudget: int64)
    requires i < |rows| && Acceptable(rows[..i], byteBudget)
    ensures Total(rows[..i + 1]) == Total(rows[..i]) + if Reads(rows[i]) then rows[i].size else 0
    ensures var fits := Reads(rows[i]) && byteBudget >= 0 ==>
        Total(rows[..i]) < byteBudget as int && Total(rows[..i + 1]) <= byteBudget as int;
      && (Acceptable(rows[..i + 1], byteBudget) <==> Sound(rows[i]) && fits)
      && (!(Sound(rows[i]) && fits) ==> !Acceptable(rows, byteBudget))
      && (!fits ==> byteBudget >= 0 && !Fits(rows, byteBudget as int))
  {
    assert rows[..i + 1][..i] == rows[..i];
    assert rows[..i + 1] == rows[..i] + [rows[i]];
    if byteBudget >= 0 && Fits(rows, byteBudget as int) {
      FitsPrefix(rows, i + 1, byteBudget as int);
    }
    if Acceptable(rows, byteBudget) {
      assert forall r :: r in rows[..i + 1] ==> r in rows;
    }
  }

  // ----------------------------------------------------------- two loads

  /** loadComparisonDumps. The remainder handed to the second load is never negative,
      which would switch the limit off; both loads together stay in the budget, and no
      single read may bring in more than what both leave of it. */
  method LoadComparisonDumps(oldRows: seq<Row>, newRows: seq<Row>, byteBudget: int64)
    returns (older: Loaded, newer: Loaded, remainingBudget: int64, olderReads: seq<Reading>, newerReads: seq<Reading>)
    ensures byteBudget >= 0 ==> 0 <= remainingBudget <= byteBudget
    ensures byteBudget < 0 ==> remainingBudget == byteBudget
    ensures older.Loaded? <==> Acceptable(oldRows, byteBudget)
    ensures older.Failed? ==> newer == older
    ensures older.Loaded? ==> (newer.Loaded? <==> Acceptable(newRows, remainingBudget))
    ensures newer.Loaded? && byteBudget >= 0 ==>
      remainingBudget as int == byteBudget as int - Total(oldRows)
      && Total(oldRows) + Total(newRows) <= byteBudget as int
    ensures forall r :: r in olderReads ==> WithinBudget(r, byteBudget)
    ensures forall r :: r in newerReads ==> WithinBudget(r, remainingBudget)
    ensures byteBudget >= 0 ==> forall r :: r in newerReads ==>
      Total(oldRows) + r.retained as int + r.limit as int <= byteBudget as int
    ensures older.Failed? ==> newerReads == []
  {
    remainingBudget := byteBudget;
    older, olderReads := LoadDumpWithBudget(oldRows, byteBudget);
    if older.Failed? {
      newer, newerReads := older, [];
      return;
    }
    if remainingBudget >= 0 {
      remainingBudget := remainingBudget - older.resourceBytes;
    }
    newer, newerReads := LoadDumpWithBudget(newRows, remainingBudget);
    if newer.Loaded? && byteBudget >= 0 {
      FitsWithin(newRows, remainingBudget as int);
    }
  }

  /** With files that hold anything, two sound dumps load together exactly when all
      they retain fits into the budget. */
  lemma {:induction false} ComparisonFits(oldRows: seq<Row>, newRows: seq<Row>, byteBudget: int64)
    requires byteBudget >= 0
    requires forall r :: (r in oldRows || r in newRows) && Reads(r) ==> r.size > 0
    requires forall r :: r in oldRows || r in newRows ==> Sound(r)
    ensures Total(oldRows) + Total(newRows) <= byteBudget as int <==>
      Acceptable(oldRows, byteBudget) && Total(oldRows) <= byteBudget as int
      && Acceptable(newRows, (byteBudget as int - Total(oldRows)) as int64)
  {
    FitsIffTotal(oldRows, byteBudget as int);
    if Total(oldRows) <= byteBudget as int {
      FitsIffTotal(newRows, byteBudget as int - Total(oldRows));
    }
  }
}
