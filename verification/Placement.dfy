/** Placing the data bits in the symbol: two-column strips from right to left, alternately up and
    down, stepping over column 6, which belongs to the timing pattern. */
module Placement {
  import opened Bits
  import opened BitBuffer
  import opened Exceptions

  /** A module is unset, or light (false) or dark (true). */
  type Cell = Option<bool>
  type Grid = seq<seq<Cell>>

  ghost predicate Square(g: Grid, n: nat) {
    |g| == n && forall r :: 0 <= r < n ==> |g[r]| == n
  }

  /** Module counts of real symbols: 4 * type + 17. */
  predicate SymbolSize(n: nat) {
    n >= 21 && n % 2 == 1
  }

  // ----- the walk -----

  function StripCount(n: nat): nat {
    n / 2
  }

  /** The right-hand column of strip `s`. */
  function StripCol(n: nat, s: nat): int {
    if n - 1 - 2 * s > 6 then n - 1 - 2 * s else n - 2 - 2 * s
  }

  /** The row of step `t` of strip `s`: strip 0 runs upward, strip 1 downward, and so on. */
  function StepRow(n: nat, s: nat, t: nat): int {
    if s % 2 == 0 then n - 1 - t else t
  }

  /** A moment of the walk: strip, step in the strip, right (0) or left (1) module of the step. */
  predicate Moment(n: nat, s: nat, t: nat, b: nat) {
    s < StripCount(n) && t < n && b < 2
  }

  /** The strip and side of a column outside column 6. */
  function StripOf(n: nat, c: nat): nat
    requires c < n && c != 6
  {
    if c > 6 then (n - 1 - c) / 2 else if n - 2 - c < 0 then 0 else (n - 2 - c) / 2
  }

  function SideOf(n: nat, c: nat): nat
    requires c < n && c != 6
  {
    if c > 6 then (n - 1 - c) % 2 else if n - 2 - c < 0 then 0 else (n - 2 - c) % 2
  }

  /** Every moment of the walk is at a module outside column 6, and at no other moment. */
  lemma WalkInRange(n: nat, s: nat, t: nat, b: nat)
    requires SymbolSize(n) && Moment(n, s, t, b)
    ensures 0 <= StepRow(n, s, t) < n && 0 <= StripCol(n, s) - b < n && StripCol(n, s) - b != 6
    ensures StripOf(n, StripCol(n, s) - b) == s && SideOf(n, StripCol(n, s) - b) == b
    ensures StepRow(n, s, StepRow(n, s, t)) == t
  {
  }

  /** Every module outside column 6 is visited. */
  lemma WalkVisits(n: nat, r: nat, c: nat)
    requires SymbolSize(n) && r < n && c < n && c != 6
    ensures Moment(n, StripOf(n, c), StepRow(n, StripOf(n, c), r), SideOf(n, c))
    ensures StripCol(n, StripOf(n, c)) - SideOf(n, c) == c
    ensures StepRow(n, StripOf(n, c), StepRow(n, StripOf(n, c), r)) == r
  {
  }

  /** The walk visits every module outside column 6 exactly once. */
  lemma WalkIsBijection(n: nat, r: nat, c: nat)
    requires SymbolSize(n) && r < n && c < n && c != 6
    ensures exists s: nat, t: nat, b: nat {:trigger Moment(n, s, t, b)} ::
      Moment(n, s, t, b) && StepRow(n, s, t) == r && StripCol(n, s) - b == c
    ensures forall s: nat, t: nat, b: nat, s': nat, t': nat, b': nat {:trigger Moment(n, s, t, b), Moment(n, s', t', b')} ::
      Moment(n, s, t, b) && StepRow(n, s, t) == r && StripCol(n, s) - b == c &&
      Moment(n, s', t', b') && StepRow(n, s', t') == r && StripCol(n, s') - b' == c
      ==> s == s' && t == t' && b == b'
  {
    WalkVisits(n, r, c);
    forall s: nat, t: nat, b: nat | Moment(n, s, t, b) && StepRow(n, s, t) == r && StripCol(n, s) - b == c
      ensures s == StripOf(n, c) && b == SideOf(n, c) && t == StepRow(n, s, r)
    {
      WalkInRange(n, s, t, b);
    }
  }

  // ----- what each module gets -----

  function Row(n: nat, s: nat, t: nat): nat
    requires SymbolSize(n) && Moment(n, s, t, 0)
  {
    WalkInRange(n, s, t, 0);
    StepRow(n, s, t)
  }

  function Col(n: nat, s: nat, b: nat): nat
    requires SymbolSize(n) && s < StripCount(n) && b < 2
  {
    WalkInRange(n, s, 0, b);
    StripCol(n, s) - b
  }

  predicate FreeAt(g: Grid, n: nat, s: nat, t: nat, b: nat)
    requires SymbolSize(n) && Square(g, n) && Moment(n, s, t, b)
  {
    WalkInRange(n, s, t, b);
    g[Row(n, s, t)][Col(n, s, b)] == None
  }

  /** How many free modules the walk meets before the moment (s, t, b). */
  function Rank(g: Grid, n: nat, s: nat, t: nat, b: nat): nat
    requires SymbolSize(n) && Square(g, n)
    requires s <= StripCount(n) && t <= n && b <= 2 && (s == StripCount(n) ==> t == b == 0) && (t == n ==> b == 0)
    decreases s, t, b
  {
    if b > 0 then Rank(g, n, s, t, b - 1) + (if FreeAt(g, n, s, t, b - 1) then 1 else 0)
    else if t > 0 then Rank(g, n, s, t - 1, 2)
    else if s > 0 then Rank(g, n, s - 1, n, 0)
    else 0
  }

  /** Bit `k` of the data stream; past the end of the data the encoder places light modules. */
  function DataBit(data: seq<Byte>, k: nat): bool {
    AllBitsLength(data);
    k < 8 * |data| && AllBits(data)[k]
  }

  /** The eight mask conditions. */
  predicate MaskFunction(pattern: nat, i: nat, j: nat)
    requires pattern < 8
  {
    match pattern
    case 0 => (i + j) % 2 == 0
    case 1 => i % 2 == 0
    case 2 => j % 3 == 0
    case 3 => (i + j) % 3 == 0
    case 4 => (i / 2 + j / 3) % 2 == 0
    case 5 => (i * j) % 2 + (i * j) % 3 == 0
    case 6 => ((i * j) % 2 + (i * j) % 3) % 2 == 0
    case _ => ((i * j) % 3 + (i + j) % 2) % 2 == 0
  }

  /** What the eight masks mean, as section 7.8.2 of ISO/IEC 18004 gives them: a checkerboard, every second
      row, every third column, every third diagonal, a checkerboard of fields two high and three wide, and
      three patterns in the product of row and column. */
  lemma MasksMean(i: nat, j: nat)
    ensures MaskFunction(0, i, j) <==> (i % 2 == 0 <==> j % 2 == 0)
    ensures MaskFunction(1, i, j) <==> i % 2 == 0
    ensures MaskFunction(2, i, j) <==> j % 3 == 0
    ensures MaskFunction(3, i, j) <==> (i + j) % 3 == 0
    ensures MaskFunction(4, i, j) <==> ((i / 2) % 2 == 0 <==> (j / 3) % 2 == 0)
    ensures MaskFunction(5, i, j) <==> (i * j) % 6 == 0
    ensures MaskFunction(6, i, j) <==> (i * j) % 6 < 3
    ensures MaskFunction(7, i, j) <==> ((i + j) % 2 == 0 <==> (i * j) % 3 != 1)
  {
    var p := i * j;
    ModSix(p);
    assert MaskFunction(5, i, j) <==> p % 2 + p % 3 == 0;
    assert MaskFunction(6, i, j) <==> (p % 2 + p % 3) % 2 == 0;
    assert MaskFunction(7, i, j) <==> (p % 3 + (i + j) % 2) % 2 == 0;
    SumIsEven(i, j);
    SumIsEven(i / 2, j / 3);
    SumIsEven(p % 3, (i + j) % 2);
  }

  lemma SumIsEven(a: nat, b: nat)
    ensures (a + b) % 2 == 0 <==> (a % 2 == 0 <==> b % 2 == 0)
  {
  }

  lemma ModSix(p: nat)
    ensures p % 2 + p % 3 == 0 <==> p % 6 == 0
    ensures (p % 2 + p % 3) % 2 == 0 <==> p % 6 < 3
  {
    var q, r := p / 6, p % 6;
    assert p == 6 * q + r;
    QuotientUnique(p, 2, 3 * q + r / 2, r % 2);
    QuotientUnique(p, 3, 2 * q + r / 3, r % 3);
  }

  /** The symbol after data placement: the k-th free module of the walk holds data bit k, flipped
      where the mask says so; every module that was set keeps its value. */
  function Placed(g: Grid, n: nat, data: seq<Byte>, pattern: nat, r: nat, c: nat): Cell
    requires SymbolSize(n) && Square(g, n) && r < n && c < n && pattern < 8
  {
    if g[r][c] != None || c == 6 then g[r][c]
    else
      WalkVisits(n, r, c);
      var s := StripOf(n, c);
      Some(DataBit(data, Rank(g, n, s, StepRow(n, s, r), SideOf(n, c))) != MaskFunction(pattern, r, c))
  }

  ghost predicate IsPlaced(g: Grid, g': Grid, n: nat, data: seq<Byte>, pattern: nat)
    requires SymbolSize(n) && Square(g, n) && pattern < 8
  {
    && Square(g', n)
    && forall r, c :: 0 <= r < n && 0 <= c < n ==> g'[r][c] == Placed(g, n, data, pattern, r, c)
  }

  /** Exactly the unset modules of column 6 stay unset: once the timing pattern has filled that
      column, no module of the symbol is left unset. */
  lemma NothingLeftUnset(g: Grid, g': Grid, n: nat, data: seq<Byte>, pattern: nat)
    requires SymbolSize(n) && Square(g, n) && pattern < 8 && IsPlaced(g, g', n, data, pattern)
    ensures forall r, c :: 0 <= r < n && 0 <= c < n ==> (g'[r][c] == None <==> c == 6 && g[r][c] == None)
  {
  }

  // ----- reading the symbol back -----

  /** The data bits read along the walk up to the moment (s, t, b): the modules free in `g`, unmasked. */
  function ReadBits(g: Grid, g': Grid, n: nat, pattern: nat, s: nat, t: nat, b: nat): seq<bool>
    requires SymbolSize(n) && Square(g, n) && Square(g', n) && pattern < 8
    requires s <= StripCount(n) && t <= n && b <= 2 && (s == StripCount(n) ==> t == b == 0) && (t == n ==> b == 0)
    decreases s, t, b
  {
    if b > 0 then
      var r, c := Row(n, s, t), Col(n, s, b - 1);
      WalkInRange(n, s, t, b - 1);
      ReadBits(g, g', n, pattern, s, t, b - 1) +
      (if FreeAt(g, n, s, t, b - 1) then [g'[r][c] == Some(!MaskFunction(pattern, r, c))] else [])
    else if t > 0 then ReadBits(g, g', n, pattern, s, t - 1, 2)
    else if s > 0 then ReadBits(g, g', n, pattern, s - 1, n, 0)
    else []
  }

  /** Reading along the walk recovers the data stream, as long as there are free modules. */
  lemma {:induction false} ReadBackPrefix(g: Grid, g': Grid, n: nat, data: seq<Byte>, pattern: nat, s: nat, t: nat, b: nat)
    requires SymbolSize(n) && Square(g, n) && pattern < 8 && IsPlaced(g, g', n, data, pattern)
    requires s <= StripCount(n) && t <= n && b <= 2 && (s == StripCount(n) ==> t == b == 0) && (t == n ==> b == 0)
    ensures |ReadBits(g, g', n, pattern, s, t, b)| == Rank(g, n, s, t, b)
    ensures forall k :: 0 <= k < Rank(g, n, s, t, b) ==> ReadBits(g, g', n, pattern, s, t, b)[k] == DataBit(data, k)
    decreases s, t, b
  {
    hide MaskFunction, DataBit;
    if b > 0 {
      ReadBackPrefix(g, g', n, data, pattern, s, t, b - 1);
      WalkInRange(n, s, t, b - 1);
      var r, c := Row(n, s, t), Col(n, s, b - 1);
      assert g'[r][c] == Placed(g, n, data, pattern, r, c);
    } else if t > 0 {
      ReadBackPrefix(g, g', n, data, pattern, s, t - 1, 2);
    } else if s > 0 {
      ReadBackPrefix(g, g', n, data, pattern, s - 1, n, 0);
    }
  }

  /** With at least as many free modules as data bits, the whole data stream comes back. */
  lemma ReadBack(g: Grid, g': Grid, n: nat, data: seq<Byte>, pattern: nat)
    requires SymbolSize(n) && Square(g, n) && pattern < 8 && IsPlaced(g, g', n, data, pattern)
    requires 8 * |data| <= Rank(g, n, StripCount(n), 0, 0)
    ensures AllBits(data) <= ReadBits(g, g', n, pattern, StripCount(n), 0, 0)
  {
    hide IsPlaced, Rank, ReadBits;
    ReadBackPrefix(g, g', n, data, pattern, StripCount(n), 0, 0);
    AllBitsLength(data);
  }

  // ----- the placement loops -----

  ghost function Snapshot(m: array2<Cell>): (g: Grid)
    reads m
    ensures |g| == m.Length0 && forall r :: 0 <= r < m.Length0 ==> |g[r]| == m.Length1
    ensures forall r, c :: 0 <= r < m.Length0 && 0 <= c < m.Length1 ==> g[r][c] == m[r, c]
  {
    seq(m.Length0, r requires 0 <= r < m.Length0 reads m =>
      seq(m.Length1, c requires 0 <= c < m.Length1 reads m => m[r, c]))
  }

  /** The module (r, c) comes before the moment (s, t, b). */
  predicate Before(n: nat, r: nat, c: nat, s: nat, t: nat, b: nat)
    requires r < n && c < n
  {
    c != 6 &&
    var s', t', b' := StripOf(n, c), StepRow(n, StripOf(n, c), r), SideOf(n, c);
    s' < s || (s' == s && (t' < t || (t' == t && b' < b)))
  }

  ghost predicate PlacedUpTo(m: array2<Cell>, g: Grid, n: nat, data: seq<Byte>, pattern: nat, s: nat, t: nat, b: nat)
    requires SymbolSize(n) && Square(g, n) && pattern < 8
    reads m
  {
    && m.Length0 == m.Length1 == n
    && forall r, c :: 0 <= r < n && 0 <= c < n ==>
         m[r, c] == if Before(n, r, c, s, t, b) then Placed(g, n, data, pattern, r, c) else g[r][c]
  }

  /** The script's bit cursor: counts down through each byte. */
  lemma CursorBit(data: seq<Byte>, byteIndex: nat, bitIndex: nat)
    requires bitIndex < 8
    ensures DataBit(data, 8 * byteIndex + (7 - bitIndex)) <==>
      byteIndex < |data| && ShiftRight(data[byteIndex], bitIndex) % 2 == 1
  {
    AllBitsLength(data);
    if byteIndex < |data| {
      BitByShift(data[byteIndex], WIDTH, bitIndex);
      AllBitsAt(data, byteIndex);
      hide AllBits, ToBits, ShiftRight;
      assert AllBits(data)[8 * byteIndex + (7 - bitIndex)] == AllBits(data)[8 * byteIndex..8 * byteIndex + 8][7 - bitIndex];
    }
  }

  /** The data bit under the cursor, or light past the end of the data; flipped under the mask. */
  method DarkModule(data: seq<Byte>, byteIndex: nat, bitIndex: nat, mask: bool) returns (dark: bool)
    requires bitIndex < 8
    ensures dark == (DataBit(data, 8 * byteIndex + (7 - bitIndex)) != mask)
  {
    CursorBit(data, byteIndex, bitIndex);
    dark := false;
    if byteIndex < |data| {
      dark := ShiftRight(data[byteIndex], bitIndex) % 2 == 1;
    }
    if mask {
      dark := !dark;
    }
  }

  /** One module of the walk. */
  method PlaceModule(m: array2<Cell>, row: nat, col: nat, data: seq<Byte>, pattern: nat, bitIndex: nat, byteIndex: nat,
                     ghost g: Grid, ghost s: nat, ghost t: nat, ghost b: nat)
    returns (bitIndex': nat, byteIndex': nat)
    requires var n := m.Length0; SymbolSize(n) && Square(g, n) && pattern < 8 && Moment(n, s, t, b)
    requires PlacedUpTo(m, g, m.Length0, data, pattern, s, t, b)
    requires row == StepRow(m.Length0, s, t) && col == StripCol(m.Length0, s) - b
    requires bitIndex < 8 && 8 * byteIndex + (7 - bitIndex) == Rank(g, m.Length0, s, t, b)
    modifies m
    ensures PlacedUpTo(m, g, m.Length0, data, pattern, s, t, b + 1)
    ensures bitIndex' < 8 && 8 * byteIndex' + (7 - bitIndex') == Rank(g, m.Length0, s, t, b + 1)
  {
    ghost var n := m.Length0;
    WalkInRange(n, s, t, b);
    MomentPassed(n, s, t, b);
    PlacedAtMoment(g, n, data, pattern, s, t, b, row, col);
    hide MaskFunction, DataBit, ShiftRight, Placed, Before, Rank, StripOf, SideOf, FreeAt, StepRow, StripCol;
    bitIndex', byteIndex' := bitIndex, byteIndex;
    assert m[row, col] == g[row][col];
    if m[row, col] == None {
      var dark := DarkModule(data, byteIndex, bitIndex, MaskFunction(pattern, row, col));
      m[row, col] := Some(dark);
      if bitIndex == 0 {
        byteIndex' := byteIndex + 1;
        bitIndex' := 7;
      } else {
        bitIndex' := bitIndex - 1;
      }
    }
    assert m[row, col] == Placed(g, n, data, pattern, row, col);
    forall r, c | 0 <= r < n && 0 <= c < n
      ensures m[r, c] == if Before(n, r, c, s, t, b + 1) then Placed(g, n, data, pattern, r, c) else g[r][c]
    {
      if !(r == row && c == col) {
        assert m[r, c] == old(m[r, c]);
      }
    }
  }

  lemma PlacedAtMoment(g: Grid, n: nat, data: seq<Byte>, pattern: nat, s: nat, t: nat, b: nat, row: nat, col: nat)
    requires SymbolSize(n) && Square(g, n) && pattern < 8 && Moment(n, s, t, b)
    requires row == StepRow(n, s, t) && col == StripCol(n, s) - b
    ensures row < n && col < n
    ensures var free := g[row][col] == None;
      && Placed(g, n, data, pattern, row, col) ==
           (if free then Some(DataBit(data, Rank(g, n, s, t, b)) != MaskFunction(pattern, row, col)) else g[row][col])
      && Rank(g, n, s, t, b + 1) == Rank(g, n, s, t, b) + (if free then 1 else 0)
  {
    hide MaskFunction, DataBit;
    WalkInRange(n, s, t, b);
  }

  /** Passing one moment adds exactly its own module to the visited ones. */
  lemma MomentPassed(n: nat, s: nat, t: nat, b: nat)
    requires SymbolSize(n) && Moment(n, s, t, b)
    ensures forall r, c :: 0 <= r < n && 0 <= c < n ==>
      (Before(n, r, c, s, t, b + 1) <==> Before(n, r, c, s, t, b) || (r == StepRow(n, s, t) && c == StripCol(n, s) - b))
    ensures !Before(n, StepRow(n, s, t), StripCol(n, s) - b, s, t, b)
  {
    WalkInRange(n, s, t, b);
    forall r, c | 0 <= r < n && 0 <= c < n
      ensures Before(n, r, c, s, t, b + 1) <==> Before(n, r, c, s, t, b) || (r == StepRow(n, s, t) && c == StripCol(n, s) - b)
    {
      if c != 6 { OneMoment(n, s, t, b, r, c); }
    }
  }

  /** The moment at which a module is visited is this one exactly if it is the module of this moment. */
  lemma OneMoment(n: nat, s: nat, t: nat, b: nat, r: nat, c: nat)
    requires SymbolSize(n) && Moment(n, s, t, b) && r < n && c < n && c != 6
    ensures StripOf(n, c) == s && SideOf(n, c) == b && StepRow(n, s, r) == t <==> r == StepRow(n, s, t) && c == StripCol(n, s) - b
  {
    WalkInRange(n, s, t, b);
    WalkVisits(n, r, c);
  }

  /** Both modules of one step. */
  method PlaceStep(m: array2<Cell>, row: nat, col: nat, data: seq<Byte>, pattern: nat, bitIndex: nat, byteIndex: nat,
                   ghost g: Grid, ghost s: nat, ghost t: nat)
    returns (bitIndex': nat, byteIndex': nat)
    requires var n := m.Length0; SymbolSize(n) && Square(g, n) && pattern < 8 && Moment(n, s, t, 0)
    requires PlacedUpTo(m, g, m.Length0, data, pattern, s, t, 0)
    requires row == StepRow(m.Length0, s, t) && col == StripCol(m.Length0, s)
    requires bitIndex < 8 && 8 * byteIndex + (7 - bitIndex) == Rank(g, m.Length0, s, t, 0)
    modifies m
    ensures PlacedUpTo(m, g, m.Length0, data, pattern, s, t + 1, 0)
    ensures bitIndex' < 8 && 8 * byteIndex' + (7 - bitIndex') == Rank(g, m.Length0, s, t + 1, 0)
  {
    bitIndex', byteIndex' := bitIndex, byteIndex;
    WalkInRange(m.Length0, s, t, 1);
    hide PlacedUpTo, Rank, StepRow, StripCol;
    for c := 0 to 2
      invariant PlacedUpTo(m, g, m.Length0, data, pattern, s, t, c)
      invariant bitIndex' < 8 && 8 * byteIndex' + (7 - bitIndex') == Rank(g, m.Length0, s, t, c)
    {
      bitIndex', byteIndex' := PlaceModule(m, row, col - c, data, pattern, bitIndex', byteIndex', g, s, t, c);
    }
    StepDone(m, g, m.Length0, data, pattern, s, t);
  }

  lemma StepDone(m: array2<Cell>, g: Grid, n: nat, data: seq<Byte>, pattern: nat, s: nat, t: nat)
    requires SymbolSize(n) && Square(g, n) && pattern < 8 && Moment(n, s, t, 0)
    requires PlacedUpTo(m, g, n, data, pattern, s, t, 2)
    ensures PlacedUpTo(m, g, n, data, pattern, s, t + 1, 0)
    ensures Rank(g, n, s, t + 1, 0) == Rank(g, n, s, t, 2)
  {
    hide Placed;
    forall r, c | 0 <= r < n && 0 <= c < n ensures Before(n, r, c, s, t, 2) == Before(n, r, c, s, t + 1, 0) {
      if c != 6 { WalkVisits(n, r, c); }
    }
  }

  lemma StripDone(m: array2<Cell>, g: Grid, n: nat, data: seq<Byte>, pattern: nat, s: nat)
    requires SymbolSize(n) && Square(g, n) && pattern < 8 && s < StripCount(n)
    requires PlacedUpTo(m, g, n, data, pattern, s, n, 0)
    ensures PlacedUpTo(m, g, n, data, pattern, s + 1, 0, 0)
    ensures Rank(g, n, s + 1, 0, 0) == Rank(g, n, s, n, 0)
  {
    hide Placed;
    forall r, c | 0 <= r < n && 0 <= c < n ensures Before(n, r, c, s, n, 0) == Before(n, r, c, s + 1, 0, 0) {
      if c != 6 { WalkVisits(n, r, c); }
    }
  }

  /** One strip, from its first row to the far edge; the direction flips at the end. */
  method PlaceStrip(m: array2<Cell>, row: int, inc: int, col: nat, data: seq<Byte>, pattern: nat, bitIndex: nat, byteIndex: nat,
                    ghost g: Grid, ghost s: nat)
    returns (row': int, inc': int, bitIndex': nat, byteIndex': nat)
    requires var n := m.Length0; SymbolSize(n) && Square(g, n) && pattern < 8 && s < StripCount(n)
    requires PlacedUpTo(m, g, m.Length0, data, pattern, s, 0, 0)
    requires col == StripCol(m.Length0, s) && row == StepRow(m.Length0, s, 0) && inc == if s % 2 == 0 then -1 else 1
    requires bitIndex < 8 && 8 * byteIndex + (7 - bitIndex) == Rank(g, m.Length0, s, 0, 0)
    modifies m
    ensures PlacedUpTo(m, g, m.Length0, data, pattern, s + 1, 0, 0)
    ensures row' == StepRow(m.Length0, s + 1, 0) && inc' == -inc
    ensures bitIndex' < 8 && 8 * byteIndex' + (7 - bitIndex') == Rank(g, m.Length0, s + 1, 0, 0)
  {
    hide PlacedUpTo, Rank, StripCol;
    row', inc', bitIndex', byteIndex' := row, inc, bitIndex, byteIndex;
    ghost var t: nat := 0;
    while true
      invariant t < m.Length0 && row' == StepRow(m.Length0, s, t) && inc' == inc
      invariant PlacedUpTo(m, g, m.Length0, data, pattern, s, t, 0)
      invariant bitIndex' < 8 && 8 * byteIndex' + (7 - bitIndex') == Rank(g, m.Length0, s, t, 0)
      decreases m.Length0 - t
    {
      bitIndex', byteIndex' := PlaceStep(m, row', col, data, pattern, bitIndex', byteIndex', g, s, t);
      row' := row' + inc';
      t := t + 1;
      if row' < 0 || m.Length0 <= row' {
        row' := row' - inc';
        inc' := -inc';
        break;
      }
    }
    StripDone(m, g, m.Length0, data, pattern, s);
  }

  /** The data placement loop. */
  method MapData(m: array2<Cell>, data: seq<Byte>, maskPattern: nat)
    requires SymbolSize(m.Length0) && m.Length1 == m.Length0 && maskPattern < 8
    modifies m
    ensures IsPlaced(old(Snapshot(m)), Snapshot(m), m.Length0, data, maskPattern)
  {
    ghost var g := Snapshot(m);
    var n := m.Length0;
    var inc := -1;
    var row: int := n - 1;
    var bitIndex, byteIndex: nat := 7, 0;
    var col: int := n - 1;
    ghost var s: nat := 0;
    PlacementStart(m, g, n, data, maskPattern);
    hide PlacedUpTo, Rank, IsPlaced, StripCol, StepRow;
    RowStart(n, 0);
    while col > 0
      invariant s <= StripCount(n)
      invariant col == if n - 1 - 2 * s >= 6 then n - 1 - 2 * s else n - 2 - 2 * s
      invariant row == StepRow(n, s, 0) && inc == if s % 2 == 0 then -1 else 1
      invariant PlacedUpTo(m, g, n, data, maskPattern, s, 0, 0)
      invariant bitIndex < 8 && 8 * byteIndex + (7 - bitIndex) == Rank(g, n, s, 0, 0)
      decreases col
    {
      StripStart(n, s, col);
      if col == 6 {
        col := col - 1;
      }
      row, inc, bitIndex, byteIndex := PlaceStrip(m, row, inc, col, data, maskPattern, bitIndex, byteIndex, g, s);
      col := col - 2;
      s := s + 1;
    }
    PlacementEnd(m, g, n, data, maskPattern);
  }

  /** The column a strip starts with, after stepping over column 6. */
  lemma StripStart(n: nat, s: nat, col: int)
    requires SymbolSize(n) && s <= StripCount(n) && col > 0
    requires col == if n - 1 - 2 * s >= 6 then n - 1 - 2 * s else n - 2 - 2 * s
    ensures s < StripCount(n) && StripCol(n, s) == if col == 6 then 5 else col
    ensures StripCol(n, s) - 2 == if n - 1 - 2 * (s + 1) >= 6 then n - 1 - 2 * (s + 1) else n - 2 - 2 * (s + 1)
    ensures StripCol(n, s) - 2 <= 0 ==> s + 1 == StripCount(n)
  {
  }

  lemma RowStart(n: nat, s: nat)
    ensures StepRow(n, s, 0) == if s % 2 == 0 then n - 1 else 0
  {
  }

  lemma PlacementStart(m: array2<Cell>, g: Grid, n: nat, data: seq<Byte>, pattern: nat)
    requires SymbolSize(n) && m.Length0 == m.Length1 == n && pattern < 8 && g == Snapshot(m)
    ensures PlacedUpTo(m, g, n, data, pattern, 0, 0, 0) && Rank(g, n, 0, 0, 0) == 0
  {
    forall r, c | 0 <= r < n && 0 <= c < n ensures !Before(n, r, c, 0, 0, 0) {
      if c != 6 { WalkVisits(n, r, c); }
    }
  }

  lemma PlacementEnd(m: array2<Cell>, g: Grid, n: nat, data: seq<Byte>, pattern: nat)
    requires SymbolSize(n) && Square(g, n) && pattern < 8
    requires PlacedUpTo(m, g, n, data, pattern, StripCount(n), 0, 0)
    ensures IsPlaced(g, Snapshot(m), n, data, pattern)
  {
    hide MaskFunction, DataBit, Rank;
    forall r, c | 0 <= r < n && 0 <= c < n ensures Before(n, r, c, StripCount(n), 0, 0) <==> c != 6 {
      if c != 6 { WalkVisits(n, r, c); }
    }
  }

  // ----- the order of the walk -----

  /** The column pairs, counted from the right edge and skipping column 6: the pair of column `c`. */
  function Pair(n: nat, c: nat): int {
    if c > 6 then (n - 1 - c) / 2 else (n - 2 - c) / 2
  }

  /** The walk meets (r', c') before (r, c): in a pair further to the right, or further down in the same pair
      if that is the first, third, fifth ... from the right and further up otherwise, or to the right of it. */
  ghost predicate Earlier(n: nat, r': nat, c': nat, r: nat, c: nat) {
    if Pair(n, c') != Pair(n, c) then c' > c
    else if r' != r then (if Pair(n, c) % 2 == 0 then r' > r else r' < r)
    else c' > c
  }

  ghost function EarlierFree(g: Grid, n: nat, r: nat, c: nat): set<(nat, nat)>
    requires Square(g, n)
  {
    set r': nat, c': nat | r' < n && c' < n && c' != 6 && g[r'][c'] == None && Earlier(n, r', c', r, c) :: (r', c')
  }

  /** The free modules met before the moment (s, t, b). */
  ghost function FreeBefore(g: Grid, n: nat, s: nat, t: nat, b: nat): set<(nat, nat)>
    requires Square(g, n)
  {
    set r: nat, c: nat | r < n && c < n && g[r][c] == None && Before(n, r, c, s, t, b) :: (r, c)
  }

  lemma {:induction false} RankCounts(g: Grid, n: nat, s: nat, t: nat, b: nat)
    requires SymbolSize(n) && Square(g, n)
    requires s <= StripCount(n) && t <= n && b <= 2 && (s == StripCount(n) ==> t == b == 0) && (t == n ==> b == 0)
    ensures |FreeBefore(g, n, s, t, b)| == Rank(g, n, s, t, b)
    decreases s, t, b
  {
    hide FreeBefore, FreeAt;
    if b > 0 {
      RankCounts(g, n, s, t, b - 1);
      OneMoreFree(g, n, s, t, b - 1);
    } else if t > 0 {
      RankCounts(g, n, s, t - 1, 2);
      SameFree(g, n, s, t - 1, 2, s, t, 0);
    } else if s > 0 {
      RankCounts(g, n, s - 1, n, 0);
      SameFree(g, n, s - 1, n, 0, s, 0, 0);
    } else {
      NoneBefore(g, n);
    }
  }

  lemma OneMoreFree(g: Grid, n: nat, s: nat, t: nat, b: nat)
    requires SymbolSize(n) && Square(g, n) && Moment(n, s, t, b)
    ensures |FreeBefore(g, n, s, t, b + 1)| == |FreeBefore(g, n, s, t, b)| + (if FreeAt(g, n, s, t, b) then 1 else 0)
  {
    MomentPassed(n, s, t, b);
    WalkInRange(n, s, t, b);
    var here := (Row(n, s, t), Col(n, s, b));
    hide Before, StripOf, SideOf;
    var now, was := FreeBefore(g, n, s, t, b + 1), FreeBefore(g, n, s, t, b);
    assert now == if FreeAt(g, n, s, t, b) then was + {here} else was;
    assert here !in was;
  }

  lemma NoneBefore(g: Grid, n: nat)
    requires SymbolSize(n) && Square(g, n)
    ensures FreeBefore(g, n, 0, 0, 0) == {}
  {
    SameBefore(n, 0, 0, 0, 0, 0, 0);
  }

  lemma SameFree(g: Grid, n: nat, s: nat, t: nat, b: nat, s': nat, t': nat, b': nat)
    requires SymbolSize(n) && Square(g, n)
    requires (s' == s && t' == t + 1 && b == 2 && b' == 0) || (s' == s + 1 && t == n && t' == b == b' == 0)
    ensures FreeBefore(g, n, s, t, b) == FreeBefore(g, n, s', t', b')
  {
    SameBefore(n, s, t, b, s', t', b');
    hide Before;
  }

  /** Two moments with no module between them. */
  lemma SameBefore(n: nat, s: nat, t: nat, b: nat, s': nat, t': nat, b': nat)
    requires SymbolSize(n)
    requires
      || (s' == s && t' == t + 1 && b == 2 && b' == 0)
      || (s' == s + 1 && t == n && t' == b == b' == 0)
      || s == t == b == s' == t' == b' == 0
    ensures forall r, c :: 0 <= r < n && 0 <= c < n ==> Before(n, r, c, s, t, b) == Before(n, r, c, s', t', b')
    ensures s == t == b == 0 ==> forall r, c :: 0 <= r < n && 0 <= c < n ==> !Before(n, r, c, s, t, b)
  {
    forall r, c | 0 <= r < n && 0 <= c < n
      ensures Before(n, r, c, s, t, b) == Before(n, r, c, s', t', b')
      ensures s == t == b == 0 ==> !Before(n, r, c, s, t, b)
    {
      if c != 6 { WalkVisits(n, r, c); }
    }
  }

  lemma EarlierIsBefore(n: nat, r: nat, c: nat)
    requires SymbolSize(n) && r < n && c < n && c != 6
    ensures forall r', c' :: 0 <= r' < n && 0 <= c' < n && c' != 6 ==>
      (Before(n, r', c', StripOf(n, c), StepRow(n, StripOf(n, c), r), SideOf(n, c)) <==> Earlier(n, r', c', r, c))
  {
  }

  /** The symbol read without the walk: a module that was free holds the data bit whose number is the
      count of free modules met before it - byte k / 8 of the data, bit 7 - k % 8 of that byte, light past
      the end of the data - flipped under the mask. */
  lemma EveryFreeModule(g: Grid, g': Grid, n: nat, data: seq<Byte>, pattern: nat, r: nat, c: nat)
    requires SymbolSize(n) && Square(g, n) && pattern < 8 && IsPlaced(g, g', n, data, pattern)
    requires r < n && c < n && c != 6 && g[r][c] == None
    ensures var k := |EarlierFree(g, n, r, c)|;
      g'[r][c] == Some((k < 8 * |data| && (data[k / 8] / Pow2(7 - k % 8)) % 2 == 1) != MaskFunction(pattern, r, c))
  {
    hide MaskFunction, DataBit, Rank, Pow2, EarlierFree, FreeBefore, Before;
    WalkVisits(n, r, c);
    var s, b := StripOf(n, c), SideOf(n, c);
    var t := StepRow(n, s, r);
    EarlierIsBefore(n, r, c);
    EarlierSets(g, n, r, c, s, t, b);
    RankCounts(g, n, s, t, b);
    BitOfByte(data, Rank(g, n, s, t, b));
    assert g'[r][c] == Placed(g, n, data, pattern, r, c);
  }

  lemma EarlierSets(g: Grid, n: nat, r: nat, c: nat, s: nat, t: nat, b: nat)
    requires Square(g, n) && r < n && c < n
    requires forall r', c' :: 0 <= r' < n && 0 <= c' < n && c' != 6 ==> (Before(n, r', c', s, t, b) <==> Earlier(n, r', c', r, c))
    ensures EarlierFree(g, n, r, c) == FreeBefore(g, n, s, t, b)
  {
    forall r', c' | 0 <= r' < n && 0 <= c' < n ensures Before(n, r', c', s, t, b) ==> c' != 6 {
    }
    hide Before, Earlier;
  }

  /** Data bits are numbered from the most significant bit of the first byte on. */
  lemma BitOfByte(data: seq<Byte>, k: nat)
    ensures DataBit(data, k) <==> k < 8 * |data| && (data[k / 8] / Pow2(7 - k % 8)) % 2 == 1
  {
    CursorBit(data, k / 8, 7 - k % 8);
    if k < 8 * |data| { ShiftIsDivision(data[k / 8], 7 - k % 8); }
  }

  // ----- function patterns -----

  /** Offset (r, c) from the finder's corner is dark: its ring and its centre. */
  predicate FinderDark(r: int, c: int) {
    || (0 <= r <= 6 && (c == 0 || c == 6))
    || (0 <= c <= 6 && (r == 0 || r == 6))
    || (2 <= r <= 4 && 2 <= c <= 4)
  }

  /** How far (r, c) is from the centre of the finder, in rings. */
  function Ring(r: int, c: int): nat {
    var dr, dc := if r < 3 then 3 - r else r - 3, if c < 3 then 3 - c else c - 3;
    if dr < dc then dc else dr
  }

  /** Ring `k` and everything inside it is the square of 2 * k + 1 modules around the centre. */
  lemma RingIsSquare(r: int, c: int, k: nat)
    ensures Ring(r, c) <= k <==> 3 - k <= r <= 3 + k && 3 - k <= c <= 3 + k
  {
  }

  /** The finder is three concentric squares: a dark one of 7 modules, a light one of 5 and a dark one of
      3 modules, inside a light border. */
  lemma FinderIsRings(r: int, c: int)
    requires -1 <= r <= 7 && -1 <= c <= 7
    ensures Ring(r, c) <= 4 && (FinderDark(r, c) <==> Ring(r, c) != 2 && Ring(r, c) != 4)
  {
  }

  /** A finder with its light border, cut off at the edges of the symbol. */
  method SetupPositionProbePattern(m: array2<Cell>, row: int, col: int)
    modifies m
    ensures forall i, j :: 0 <= i < m.Length0 && 0 <= j < m.Length1 ==>
      m[i, j] == if row - 1 <= i <= row + 7 && col - 1 <= j <= col + 7 then Some(FinderDark(i - row, j - col)) else old(m[i, j])
  {
    hide FinderDark;
    for r := -1 to 8
      invariant forall i, j :: 0 <= i < m.Length0 && 0 <= j < m.Length1 ==>
        m[i, j] == if row - 1 <= i < row + r && col - 1 <= j <= col + 7 then Some(FinderDark(i - row, j - col)) else old(m[i, j])
    {
      if !(row + r <= -1 || m.Length0 <= row + r) {
        for c := -1 to 8
          invariant forall i, j :: 0 <= i < m.Length0 && 0 <= j < m.Length1 ==>
            m[i, j] ==
              if col - 1 <= j <= col + 7 && (row - 1 <= i < row + r || (i == row + r && j < col + c))
              then Some(FinderDark(i - row, j - col)) else old(m[i, j])
        {
          if !(col + c <= -1 || m.Length1 <= col + c) {
            m[row + r, col + c] := Some(FinderDark(r, c));
          }
        }
      }
    }
  }

  /** What the timing pattern writes: the free modules of column 6 and row 6 between the finders. */
  predicate OnTimingLine(n: nat, i: int, j: int) {
    (j == 6 && 8 <= i < n - 8) || (i == 6 && 8 <= j < n - 8)
  }

  method SetupTimingPattern(m: array2<Cell>)
    requires SymbolSize(m.Length0) && m.Length1 == m.Length0
    modifies m
    ensures forall i, j :: 0 <= i < m.Length0 && 0 <= j < m.Length0 ==>
      m[i, j] == if OnTimingLine(m.Length0, i, j) && old(m[i, j]) == None
                 then Some((if j == 6 then i else j) % 2 == 0) else old(m[i, j])
  {
    var n := m.Length0;
    for r := 8 to n - 8
      invariant forall i, j :: 0 <= i < n && 0 <= j < n ==>
        m[i, j] == if j == 6 && 8 <= i < r && old(m[i, j]) == None then Some(i % 2 == 0) else old(m[i, j])
    {
      if m[r, 6] == None {
        m[r, 6] := Some(r % 2 == 0);
      }
    }
    for c := 8 to n - 8
      invariant forall i, j :: 0 <= i < n && 0 <= j < n ==>
        m[i, j] == if ((j == 6 && 8 <= i < n - 8) || (i == 6 && 8 <= j < c)) && old(m[i, j]) == None
                   then Some((if j == 6 then i else j) % 2 == 0) else old(m[i, j])
    {
      if m[6, c] == None {
        m[6, c] := Some(c % 2 == 0);
      }
    }
  }

  /** A module written by a pattern that is not modelled in detail: alignment, format, version. */
  datatype FixedModule = FixedModule(row: nat, col: nat, dark: bool)

  ghost predicate Touched(fixed: seq<FixedModule>, i: int, j: int) {
    exists k :: 0 <= k < |fixed| && fixed[k].row == i && fixed[k].col == j
  }

  /** Write `k` is the last one to its module. */
  ghost predicate LastAt(fixed: seq<FixedModule>, k: nat)
    requires k < |fixed|
  {
    forall l :: k < l < |fixed| ==> !(fixed[l].row == fixed[k].row && fixed[l].col == fixed[k].col)
  }

  lemma {:induction false} TouchedHasLast(fixed: seq<FixedModule>, i: int, j: int)
    ensures Touched(fixed, i, j) <==> exists k :: 0 <= k < |fixed| && fixed[k].row == i && fixed[k].col == j && LastAt(fixed, k)
  {
    if fixed != [] && Touched(fixed, i, j) {
      var k := |fixed| - 1;
      WritesSnoc(fixed, k, fixed[..k], fixed);
      if !(fixed[k].row == i && fixed[k].col == j) {
        TouchedHasLast(fixed[..k], i, j);
        var l :| 0 <= l < k && fixed[..k][l].row == i && fixed[..k][l].col == j && LastAt(fixed[..k], l);
        assert LastAt(fixed, l);
      }
    }
  }

  method WriteFixed(m: array2<Cell>, fixed: seq<FixedModule>)
    requires forall k :: 0 <= k < |fixed| ==> fixed[k].row < m.Length0 && fixed[k].col < m.Length1
    modifies m
    ensures forall i, j :: 0 <= i < m.Length0 && 0 <= j < m.Length1 && !Touched(fixed, i, j) ==> m[i, j] == old(m[i, j])
    ensures forall k {:trigger LastAt(fixed, k)} ::
      0 <= k < |fixed| && LastAt(fixed, k) ==> m[fixed[k].row, fixed[k].col] == Some(fixed[k].dark)
    ensures forall i, j :: 0 <= i < m.Length0 && 0 <= j < m.Length1 && Touched(fixed, i, j) ==> m[i, j] != None
  {
    for k := 0 to |fixed|
      invariant forall i, j :: 0 <= i < m.Length0 && 0 <= j < m.Length1 && !Touched(fixed[..k], i, j) ==> m[i, j] == old(m[i, j])
      invariant forall l {:trigger LastAt(fixed[..k], l)} ::
        0 <= l < k && LastAt(fixed[..k], l) ==> m[fixed[l].row, fixed[l].col] == Some(fixed[l].dark)
      invariant forall l :: 0 <= l < k ==> m[fixed[l].row, fixed[l].col] != None
    {
      WritesSnoc(fixed, k, fixed[..k], fixed[..k + 1]);
      m[fixed[k].row, fixed[k].col] := Some(fixed[k].dark);
    }
    assert fixed[..|fixed|] == fixed;
  }

  lemma WritesSnoc(fixed: seq<FixedModule>, k: nat, p: seq<FixedModule>, q: seq<FixedModule>)
    requires k < |fixed| && p == fixed[..k] && q == fixed[..k + 1]
    ensures forall i, j :: Touched(q, i, j) <==> Touched(p, i, j) || (fixed[k].row == i && fixed[k].col == j)
    ensures forall l {:trigger LastAt(q, l)} :: 0 <= l < k ==>
      (LastAt(q, l) <==> LastAt(p, l) && !(fixed[k].row == fixed[l].row && fixed[k].col == fixed[l].col))
    ensures LastAt(q, k)
  {
    forall i, j | Touched(p, i, j) ensures Touched(q, i, j) {
      var l :| 0 <= l < |p| && p[l].row == i && p[l].col == j;
      assert q[l] == p[l];
    }
    assert q[k] == fixed[k];
    forall l | 0 <= l < k
      ensures LastAt(q, l) <==> LastAt(p, l) && !(fixed[k].row == fixed[l].row && fixed[k].col == fixed[l].col)
    {
      assert q[l] == p[l] == fixed[l];
      if LastAt(q, l) {
        forall x | l < x < k ensures !(p[x].row == p[l].row && p[x].col == p[l].col) {
          assert q[x] == p[x];
        }
      }
    }
  }

  /** Builds a symbol: finders, alignment, timing, format and version, then the data. `g` is the
      symbol just before the data goes in. Wherever no alignment or format module was written, the finished
      symbol has its three finders with their light borders, ring by ring, and its two timing lines; the
      modules left for the data are exactly those outside finders and lines that nothing was written to. */
  method MakeImpl(n: nat, alignment: seq<FixedModule>, format: seq<FixedModule>, data: seq<Byte>, maskPattern: nat)
    returns (m: array2<Cell>, ghost g: Grid)
    requires SymbolSize(n) && maskPattern < 8
    requires forall k :: 0 <= k < |alignment| ==> alignment[k].row < n && alignment[k].col < n
    requires forall k :: 0 <= k < |format| ==> format[k].row < n && format[k].col < n
    ensures fresh(m) && m.Length0 == m.Length1 == n && Square(g, n)
    ensures IsPlaced(g, Snapshot(m), n, data, maskPattern)
    ensures forall i, j :: 0 <= i < n && 0 <= j < n ==> m[i, j] != None
    ensures forall i, j :: 0 <= i < 8 && 0 <= j < 8 && !Touched(alignment, i, j) && !Touched(format, i, j) ==>
      m[i, j] == Some(Ring(i, j) != 2 && Ring(i, j) != 4)
    ensures forall i, j :: n - 8 <= i < n && 0 <= j < 8 && !Touched(alignment, i, j) && !Touched(format, i, j) ==>
      m[i, j] == Some(Ring(i - (n - 7), j) != 2 && Ring(i - (n - 7), j) != 4)
    ensures forall i, j :: 0 <= i < 8 && n - 8 <= j < n && !Touched(alignment, i, j) && !Touched(format, i, j) ==>
      m[i, j] == Some(Ring(i, j - (n - 7)) != 2 && Ring(i, j - (n - 7)) != 4)
    ensures forall i :: 8 <= i < n - 8 && !Touched(alignment, i, 6) && !Touched(format, i, 6) ==> m[i, 6] == Some(i % 2 == 0)
    ensures forall j :: 8 <= j < n - 8 && !Touched(alignment, 6, j) && !Touched(format, 6, j) ==> m[6, j] == Some(j % 2 == 0)
    ensures forall k {:trigger LastAt(alignment, k)} ::
      0 <= k < |alignment| && LastAt(alignment, k) && !Touched(format, alignment[k].row, alignment[k].col) ==>
      m[alignment[k].row, alignment[k].col] == Some(alignment[k].dark)
    ensures forall k {:trigger LastAt(format, k)} ::
      0 <= k < |format| && LastAt(format, k) ==> m[format[k].row, format[k].col] == Some(format[k].dark)
    ensures forall i, j :: 0 <= i < n && 0 <= j < n ==> (g[i][j] != None ==> m[i, j] == g[i][j]) && (g[i][j] == None <==>
      && i != 6 && j != 6 && !(i < 8 && j < 8) && !(n - 8 <= i && j < 8) && !(i < 8 && n - 8 <= j)
      && !Touched(alignment, i, j) && !Touched(format, i, j))
  {
    hide IsPlaced, FinderDark, Touched, LastAt, Ring;
    m := FunctionPatterns(n, alignment, format);
    g := Snapshot(m);
    MapData(m, data, maskPattern);
    NothingLeftUnset(g, Snapshot(m), n, data, maskPattern);
    SetModulesStay(g, Snapshot(m), n, data, maskPattern);
    forall i, j | 0 <= i < n && 0 <= j < n ensures m[i, j] != None && (g[i][j] != None ==> m[i, j] == g[i][j]) {
      assert Snapshot(m)[i][j] == m[i, j];
    }
    TouchedAt(alignment);
    TouchedAt(format);
  }

  lemma TouchedAt(fixed: seq<FixedModule>)
    ensures forall k :: 0 <= k < |fixed| ==> Touched(fixed, fixed[k].row, fixed[k].col)
  {
  }

  lemma SetModulesStay(g: Grid, g': Grid, n: nat, data: seq<Byte>, pattern: nat)
    requires SymbolSize(n) && Square(g, n) && pattern < 8 && IsPlaced(g, g', n, data, pattern)
    ensures forall r, c :: 0 <= r < n && 0 <= c < n && g[r][c] != None ==> g'[r][c] == g[r][c]
  {
  }

  /** The symbol without its data. */
  method FunctionPatterns(n: nat, alignment: seq<FixedModule>, format: seq<FixedModule>) returns (m: array2<Cell>)
    requires SymbolSize(n)
    requires forall k :: 0 <= k < |alignment| ==> alignment[k].row < n && alignment[k].col < n
    requires forall k :: 0 <= k < |format| ==> format[k].row < n && format[k].col < n
    ensures fresh(m) && m.Length0 == m.Length1 == n
    ensures forall i, j :: 0 <= i < 8 && 0 <= j < 8 && !Touched(alignment, i, j) && !Touched(format, i, j) ==>
      m[i, j] == Some(Ring(i, j) != 2 && Ring(i, j) != 4)
    ensures forall i, j :: n - 8 <= i < n && 0 <= j < 8 && !Touched(alignment, i, j) && !Touched(format, i, j) ==>
      m[i, j] == Some(Ring(i - (n - 7), j) != 2 && Ring(i - (n - 7), j) != 4)
    ensures forall i, j :: 0 <= i < 8 && n - 8 <= j < n && !Touched(alignment, i, j) && !Touched(format, i, j) ==>
      m[i, j] == Some(Ring(i, j - (n - 7)) != 2 && Ring(i, j - (n - 7)) != 4)
    ensures forall i :: 8 <= i < n - 8 && !Touched(alignment, i, 6) && !Touched(format, i, 6) ==> m[i, 6] == Some(i % 2 == 0)
    ensures forall j :: 8 <= j < n - 8 && !Touched(alignment, 6, j) && !Touched(format, 6, j) ==> m[6, j] == Some(j % 2 == 0)
    ensures forall k {:trigger LastAt(alignment, k)} ::
      0 <= k < |alignment| && LastAt(alignment, k) && !Touched(format, alignment[k].row, alignment[k].col) ==>
      m[alignment[k].row, alignment[k].col] == Some(alignment[k].dark)
    ensures forall k {:trigger LastAt(format, k)} ::
      0 <= k < |format| && LastAt(format, k) ==> m[format[k].row, format[k].col] == Some(format[k].dark)
    ensures forall i, j :: 0 <= i < n && 0 <= j < n ==> (m[i, j] == None <==>
      && i != 6 && j != 6 && !(i < 8 && j < 8) && !(n - 8 <= i && j < 8) && !(i < 8 && n - 8 <= j)
      && !Touched(alignment, i, j) && !Touched(format, i, j))
  {
    hide FinderDark, Touched, LastAt, Ring;
    m := Finders(n);
    WriteFixed(m, alignment);
    SetupTimingPattern(m);
    TouchedAt(alignment);
    WriteFixed(m, format);
    TouchedAt(format);
  }

  /** An empty symbol with its three finders. */
  method Finders(n: nat) returns (m: array2<Cell>)
    requires SymbolSize(n)
    ensures fresh(m) && m.Length0 == m.Length1 == n
    ensures forall i, j :: 0 <= i < 8 && 0 <= j < 8 ==> m[i, j] == Some(Ring(i, j) != 2 && Ring(i, j) != 4)
    ensures forall i, j :: n - 8 <= i < n && 0 <= j < 8 ==>
      m[i, j] == Some(Ring(i - (n - 7), j) != 2 && Ring(i - (n - 7), j) != 4)
    ensures forall i, j :: 0 <= i < 8 && n - 8 <= j < n ==>
      m[i, j] == Some(Ring(i, j - (n - 7)) != 2 && Ring(i, j - (n - 7)) != 4)
    ensures forall i, j :: 0 <= i < n && 0 <= j < n && (8 <= i || (8 <= j < n - 8)) && (8 <= j || (8 <= i < n - 8)) ==> m[i, j] == None
  {
    hide FinderDark, Ring;
    m := new Cell[n, n]((i, j) => None);
    SetupPositionProbePattern(m, 0, 0);
    SetupPositionProbePattern(m, n - 7, 0);
    SetupPositionProbePattern(m, 0, n - 7);
    forall r, c | -1 <= r <= 7 && -1 <= c <= 7 ensures FinderDark(r, c) <==> Ring(r, c) != 2 && Ring(r, c) != 4 {
      FinderIsRings(r, c);
    }
  }
}
