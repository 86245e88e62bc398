/** The constant Morse table of mled and the timing constants it is written in.
    Durations are microseconds, as passed to usleep. */
module MorseTable {

  /** Short mark (dit). */
  const S: int := 250000
  /** Long mark (dah), three short units. */
  const L: int := 3 * S
  /** Pause used as a word separator: seven short units. */
  const WS: int := 7 * S
  /** Sentinel that ends a row before its fifth entry. */
  const N: int := -1
  /** Number of entries in every row. */
  const MorseDim: nat := 5

  /** Rows for 'a'..'z' followed by '0'..'9', exactly as the program writes them. */
  const Table: seq<seq<int>> := [
    [S, L, N, N, N],  // a
    [L, S, S, N, N],  // b
    [L, S, L, S, N],  // c
    [L, S, S, N, N],  // d
    [S, N, N, N, N],  // e
    [S, S, L, S, N],  // f
    [L, L, S, N, N],  // g
    [S, S, S, S, N],  // h
    [S, S, N, N, N],  // i
    [S, L, L, L, N],  // j
    [L, S, L, N, N],  // k
    [S, L, S, S, N],  // l
    [L, L, N, N, N],  // m
    [L, S, N, N, N],  // n
    [L, L, L, N, N],  // o
    [S, L, L, S, N],  // p
    [L, L, S, L, N],  // q
    [S, L, S, N, N],  // r
    [S, S, S, N, N],  // s
    [L, N, N, N, N],  // t
    [S, S, L, N, N],  // u
    [S, S, S, L, N],  // v
    [S, L, L, N, N],  // w
    [L, S, S, L, N],  // x
    [L, S, L, L, N],  // y
    [L, L, S, S, N],  // z
    [L, L, L, L, L],  // 0
    [S, L, L, L, L],  // 1
    [S, S, L, L, L],  // 2
    [S, S, S, L, L],  // 3
    [S, S, S, S, L],  // 4
    [S, S, S, S, S],  // 5
    [L, S, S, S, S],  // 6
    [L, L, S, S, S],  // 7
    [L, L, L, S, S],  // 8
    [L, L, L, L, S]   // 9
  ]

  /** The entries of a row that are played: everything before the first
      sentinel. The result is the longest sentinel-free prefix of the row. */
  function ActiveEntries(row: seq<int>): (r: seq<int>)
    ensures |r| <= |row| && r == row[..|r|]
    ensures forall j :: 0 <= j < |r| ==> r[j] != N
    ensures |r| < |row| ==> row[|r|] == N
  {
    if row == [] || row[0] == N then [] else [row[0]] + ActiveEntries(row[1..])
  }

  /** A sentinel-free prefix that ends at a sentinel or at the end of the row
      is the active part of that row. */
  lemma {:induction false} ActiveEntriesUnique(row: seq<int>, i: nat)
    requires i <= |row|
    requires forall j :: 0 <= j < i ==> row[j] != N
    requires i == |row| || row[i] == N
    ensures ActiveEntries(row) == row[..i]
  {
    if i > 0 {
      ActiveEntriesUnique(row[1..], i - 1);
      assert row[..i] == [row[0]] + row[1..][..i - 1];
    }
  }

  /** A row as the table promises it: five entries, each S, L or N; one to
      five marks, each S or L; and sentinels only as a trailing suffix. */
  predicate WellFormedRow(row: seq<int>)
  {
    |row| == MorseDim &&
    (forall j :: 0 <= j < |row| ==> row[j] == S || row[j] == L || row[j] == N) &&
    1 <= |ActiveEntries(row)| <= MorseDim &&
    (forall j :: 0 <= j < |ActiveEntries(row)| ==> ActiveEntries(row)[j] == S || ActiveEntries(row)[j] == L) &&
    (forall j :: |ActiveEntries(row)| <= j < |row| ==> row[j] == N)
  }

  /** Position of the first sentinel among the first five entries (5 when there is none). */
  function FirstSentinel(row: seq<int>): nat
    requires |row| == MorseDim
  {
    if row[0] == N then 0 else if row[1] == N then 1 else if row[2] == N then 2
    else if row[3] == N then 3 else if row[4] == N then 4 else 5
  }

  /** A five-entry row with marks up to its first sentinel and sentinels
      from there on is well formed. */
  lemma WellFormedIntro(row: seq<int>)
    requires |row| == MorseDim && row[0] != N
    requires forall j :: 0 <= j < FirstSentinel(row) ==> row[j] == S || row[j] == L
    requires forall j :: FirstSentinel(row) <= j < MorseDim ==> row[j] == N
    ensures WellFormedRow(row)
  {
    ActiveEntriesUnique(row, FirstSentinel(row));
  }

  /** There are exactly 36 rows, and every row is well formed. */
  lemma TableWellFormed()
    ensures |Table| == 36
    ensures forall r :: 0 <= r < |Table| ==> WellFormedRow(Table[r])
  {
    forall r | 0 <= r < |Table| ensures WellFormedRow(Table[r]) {
      WellFormedIntro(Table[r]);
    }
  }

  /** As written, the row for 'b' is the row for 'd' (dah dit dit); the
      International Morse Code gives 'b' as dah dit dit dit. */
  lemma RowBIsRowD()
    ensures Table[1] == Table[3] == [L, S, S, N, N]
    ensures ActiveEntries(Table[1]) == [L, S, S] != [L, S, S, S]
  {
    assert Table[1] == [L, S, S, N, N];
    ActiveEntriesUnique(Table[1], 3);
  }
}
