/** The 19x19 five-in-a-row board packed at two bits per cell (tictactoe/board.rs). */
module Board {
  import opened GameTypes

  /** Side length of the board. */
  const N: nat := 19
  /** Number of cells. */
  const CELLS: nat := N * N
  /** Bytes of packed storage: `(N * N - 1) / 4 + 1`. */
  const BYTES: nat := (N * N - 1) / 4 + 1

  datatype CellState = Empty | X | O

  type Coord = (nat, nat)

  /** The packed board: cell `idx = x * 19 + y` occupies the two bits at
      `2 * (idx % 4)` of byte `idx / 4`, with code 0 = Empty, 1 = X, 2 = O. */
  datatype BoardState = BoardState(state: seq<bv8>)

  function Code(s: CellState): (v: bv8)
    ensures v <= 2
  {
    match s
    case Empty => 0
    case X => 1
    case O => 2
  }

  /** The two-bit field at position `off` of a byte, written with constant shifts. */
  function Field(b: bv8, off: nat): bv8
    requires off < 4
  {
    if off == 0 then b & 3
    else if off == 1 then (b >> 2) & 3
    else if off == 2 then (b >> 4) & 3
    else (b >> 6) & 3
  }

  /** The byte with the field at `off` cleared and then set to `v`. */
  function WithField(b: bv8, off: nat, v: bv8): bv8
    requires off < 4 && v <= 3
  {
    if off == 0 then (b & 0xFC) | v
    else if off == 1 then (b & 0xF3) | (v << 2)
    else if off == 2 then (b & 0xCF) | (v << 4)
    else (b & 0x3F) | (v << 6)
  }

  /** The shift `2 * off` of field `off`, as a bit-vector shift amount. */
  function Shift(off: nat): (sh: bv8)
    requires off < 4
    ensures sh < 8
  {
    if off == 0 then 0 else if off == 1 then 2 else if off == 2 then 4 else 6
  }

  /** The shift of field `off` is `2 * off` bits. */
  lemma ShiftIsTwiceOffset(off: nat)
    requires off < 4
    ensures Shift(off) as int == 2 * off
  {
    if off == 0 {} else if off == 1 {} else if off == 2 {} else {}
  }

  /** Reading a field is the shift by `2 * off` and mask of `index`. */
  lemma FieldIsShift(b: bv8, off: nat)
    requires off < 4
    ensures Field(b, off) == (b >> Shift(off)) & 3
  {
  }

  /** Writing a field is the clear-then-set through shifts by `2 * off` of
      `set_inplace`. */
  lemma WithFieldIsShift(b: bv8, off: nat, v: bv8)
    requires off < 4 && v <= 3
    ensures WithField(b, off, v) == (b & !(3 << Shift(off))) | (v << Shift(off))
  {
    var sh := Shift(off);
    if off == 0 {
      assert sh == 0 && !((3 as bv8) << sh) == 0xFC;
    } else if off == 1 {
      assert sh == 2 && !((3 as bv8) << sh) == 0xF3;
    } else if off == 2 {
      assert sh == 4 && !((3 as bv8) << sh) == 0xCF;
    } else {
      assert sh == 6 && !((3 as bv8) << sh) == 0x3F;
    }
  }

  /** Writing a field changes that field and no other. */
  lemma FieldWithField(b: bv8, off: nat, v: bv8, o: nat)
    requires off < 4 && v <= 3 && o < 4
    ensures Field(WithField(b, off, v), o) == if o == off then v else Field(b, o)
  {
    if off == 0 { if o == 0 {} else if o == 1 {} else if o == 2 {} else {} }
    else if off == 1 { if o == 0 {} else if o == 1 {} else if o == 2 {} else {} }
    else if off == 2 { if o == 0 {} else if o == 1 {} else if o == 2 {} else {} }
    else { if o == 0 {} else if o == 1 {} else if o == 2 {} else {} }
  }

  /** Writing field 0 keeps the six high bits. */
  lemma WithFieldZeroHigh(b: bv8, v: bv8)
    requires v <= 3
    ensures WithField(b, 0, v) >> 2 == b >> 2
  {
  }

  /** A byte is determined by its four fields. */
  lemma FieldsDetermineByte(a: bv8, b: bv8)
    requires Field(a, 0) == Field(b, 0) && Field(a, 1) == Field(b, 1)
    requires Field(a, 2) == Field(b, 2) && Field(a, 3) == Field(b, 3)
    ensures a == b
  {
  }

  /** A byte is determined by field 0 and its six high bits. */
  lemma LowFieldAndHighDetermineByte(a: bv8, b: bv8)
    requires Field(a, 0) == Field(b, 0) && a >> 2 == b >> 2
    ensures a == b
  {
  }

  /** The code stored for flat cell index `idx`. */
  function CodeAt(bs: seq<bv8>, idx: nat): bv8
    requires |bs| == BYTES && idx < CELLS
  {
    Field(bs[idx / 4], idx % 4)
  }

  /** The bytes after storing code `v` for flat cell index `idx`. */
  function SetCode(bs: seq<bv8>, idx: nat, v: bv8): seq<bv8>
    requires |bs| == BYTES && idx < CELLS && v <= 3
  {
    bs[idx / 4 := WithField(bs[idx / 4], idx % 4, v)]
  }

  /** Storing one cell's code changes exactly that cell's code and keeps the unused
      high bits of the last byte. */
  lemma {:induction false} SetCodeFrame(bs: seq<bv8>, idx: nat, v: bv8)
    requires |bs| == BYTES && idx < CELLS && v <= 3
    ensures |SetCode(bs, idx, v)| == BYTES
    ensures forall j :: 0 <= j < CELLS ==> CodeAt(SetCode(bs, idx, v), j) == if j == idx then v else CodeAt(bs, j)
    ensures SetCode(bs, idx, v)[BYTES - 1] >> 2 == bs[BYTES - 1] >> 2
  {
    var r := SetCode(bs, idx, v);
    forall j | 0 <= j < CELLS
      ensures CodeAt(r, j) == if j == idx then v else CodeAt(bs, j)
    {
      if j / 4 == idx / 4 {
        FieldWithField(bs[idx / 4], idx % 4, v, j % 4);
      }
    }
    if idx / 4 == BYTES - 1 {
      WithFieldZeroHigh(bs[idx / 4], v);
    }
  }

  /** Every stored code is one of the three that `index` can decode (so its
      `unreachable!()` arm is never taken) and the storage has 91 bytes. */
  predicate Valid(b: BoardState)
  {
    |b.state| == BYTES && forall idx :: 0 <= idx < CELLS ==> CodeAt(b.state, idx) != 3
  }

  function Decode(v: bv8): (s: CellState)
    requires v <= 2
    ensures Code(s) == v
  {
    if v == 0 then Empty else if v == 1 then X else O
  }

  /** The cell at flat index `idx`. */
  function CellAt(b: BoardState, idx: nat): CellState
    requires Valid(b) && idx < CELLS
  {
    Decode(CodeAt(b.state, idx))
  }

  /** `new`: every byte zero. */
  function New(): BoardState
  {
    BoardState(seq(BYTES, _ => 0))
  }

  /** `index`: the cell at `(x, y)`, for coordinates below 19. */
  function Index(b: BoardState, c: Coord): CellState
    requires Valid(b) && c.0 < N && c.1 < N
  {
    CellAt(b, c.0 * N + c.1)
  }

  function SetCell(b: BoardState, idx: nat, s: CellState): BoardState
    requires |b.state| == BYTES && idx < CELLS
  {
    BoardState(SetCode(b.state, idx, Code(s)))
  }

  /** `set` / `set_inplace`: store `s` at `(x, y)`, for coordinates below 19. */
  function Set(b: BoardState, c: Coord, s: CellState): BoardState
    requires |b.state| == BYTES && c.0 < N && c.1 < N
  {
    SetCell(b, c.0 * N + c.1, s)
  }

  /** The coordinate of flat index `idx`, in row-major order. */
  function CoordOf(idx: nat): (c: Coord)
    requires idx < CELLS
    ensures c.0 < N && c.1 < N && c.0 * N + c.1 == idx
  {
    (idx / N, idx % N)
  }

  lemma CoordOfFlat(c: Coord)
    requires c.0 < N && c.1 < N
    ensures c.0 * N + c.1 < CELLS && CoordOf(c.0 * N + c.1) == c
  {
  }

  lemma {:induction false} SetCellFrame(b: BoardState, idx: nat, s: CellState)
    requires Valid(b) && idx < CELLS
    ensures Valid(SetCell(b, idx, s))
    ensures forall j :: 0 <= j < CELLS ==> CellAt(SetCell(b, idx, s), j) == if j == idx then s else CellAt(b, j)
    ensures SetCell(b, idx, s).state[BYTES - 1] >> 2 == b.state[BYTES - 1] >> 2
  {
    SetCodeFrame(b.state, idx, Code(s));
  }

  /** Reading a cell back returns what was set there; every other cell keeps its
      value; the board stays decodable. */
  lemma {:induction false} SetThenIndex(b: BoardState, c: Coord, s: CellState)
    requires Valid(b) && c.0 < N && c.1 < N
    ensures Valid(Set(b, c, s))
    ensures Index(Set(b, c, s), c) == s
    ensures forall c': Coord :: c'.0 < N && c'.1 < N && c' != c ==> Index(Set(b, c, s), c') == Index(b, c')
  {
    SetCellFrame(b, c.0 * N + c.1, s);
    forall c': Coord | c'.0 < N && c'.1 < N && c' != c
      ensures Index(Set(b, c, s), c') == Index(b, c')
    {
      CoordOfFlat(c);
      CoordOfFlat(c');
    }
  }

  /** A new board is decodable, has 91 bytes, and every cell is Empty. */
  lemma NewIsEmpty()
    ensures BYTES == 91 && Valid(New()) && |New().state| == 91
    ensures forall idx :: 0 <= idx < CELLS ==> CellAt(New(), idx) == Empty
  {
  }

  /** Decodable boards with the same cells and the same unused high bits are equal. */
  lemma {:induction false} Extensionality(a: BoardState, b: BoardState)
    requires Valid(a) && Valid(b)
    requires forall idx :: 0 <= idx < CELLS ==> CellAt(a, idx) == CellAt(b, idx)
    requires a.state[BYTES - 1] >> 2 == b.state[BYTES - 1] >> 2
    ensures a == b
  {
    forall i | 0 <= i < BYTES
      ensures a.state[i] == b.state[i]
    {
      assert CodeAt(a.state, 4 * i) == Code(CellAt(a, 4 * i));
      assert CodeAt(b.state, 4 * i) == Code(CellAt(b, 4 * i));
      if i < BYTES - 1 {
        assert CodeAt(a.state, 4 * i + 1) == Code(CellAt(a, 4 * i + 1));
        assert CodeAt(b.state, 4 * i + 1) == Code(CellAt(b, 4 * i + 1));
        assert CodeAt(a.state, 4 * i + 2) == Code(CellAt(a, 4 * i + 2));
        assert CodeAt(b.state, 4 * i + 2) == Code(CellAt(b, 4 * i + 2));
        assert CodeAt(a.state, 4 * i + 3) == Code(CellAt(a, 4 * i + 3));
        assert CodeAt(b.state, 4 * i + 3) == Code(CellAt(b, 4 * i + 3));
        FieldsDetermineByte(a.state[i], b.state[i]);
      } else {
        LowFieldAndHighDetermineByte(a.state[i], b.state[i]);
      }
    }
    assert a.state == b.state;
  }

  function Swap(s: CellState): CellState
  {
    match s
    case Empty => Empty
    case X => O
    case O => X
  }

  /** The code of the swapped colour: X and O exchange, Empty stays. */
  function SwapCode(v: bv8): bv8
  {
    if v == 1 then 2 else if v == 2 then 1 else v
  }

  /** The board after the double loop of `flip_players_inplace` has processed the
      first `k` cells in row-major order. */
  function FlipUpTo(b: BoardState, k: nat): (r: BoardState)
    requires |b.state| == BYTES && k <= CELLS
    ensures |r.state| == BYTES
  {
    if k == 0 then b
    else
      var p := FlipUpTo(b, k - 1);
      BoardState(SetCode(p.state, k - 1, SwapCode(CodeAt(p.state, k - 1))))
  }

  /** Swapping a decodable code is swapping the colour it decodes to. */
  lemma SwapCodeDecode(v: bv8)
    requires v <= 2
    ensures SwapCode(v) == Code(Swap(Decode(v)))
  {
  }

  /** The first `k` cells have their colour swapped, the others are untouched, the
      board stays decodable and the unused high bits are kept. */
  lemma {:induction false} FlipUpToCells(b: BoardState, k: nat)
    requires Valid(b) && k <= CELLS
    ensures Valid(FlipUpTo(b, k))
    ensures forall j :: 0 <= j < CELLS ==> CellAt(FlipUpTo(b, k), j) == if j < k then Swap(CellAt(b, j)) else CellAt(b, j)
    ensures FlipUpTo(b, k).state[BYTES - 1] >> 2 == b.state[BYTES - 1] >> 2
  {
    if k > 0 {
      FlipUpToCells(b, k - 1);
      FlipStep(b, k);
    }
  }

  /** Step `k` of the flip swaps the colour of cell `k - 1` and keeps every other. */
  lemma FlipStep(b: BoardState, k: nat)
    requires |b.state| == BYTES && 0 < k <= CELLS && Valid(FlipUpTo(b, k - 1))
    ensures var p, q := FlipUpTo(b, k - 1), FlipUpTo(b, k);
      && Valid(q)
      && (forall j :: 0 <= j < CELLS ==> CellAt(q, j) == if j == k - 1 then Swap(CellAt(p, j)) else CellAt(p, j))
      && q.state[BYTES - 1] >> 2 == p.state[BYTES - 1] >> 2
  {
    var p := FlipUpTo(b, k - 1);
    SwapCodeDecode(CodeAt(p.state, k - 1));
    SetCellFrame(p, k - 1, Swap(CellAt(p, k - 1)));
  }

  /** `flip_players`: swap X and O in every cell. */
  function FlipPlayers(b: BoardState): BoardState
    requires Valid(b)
  {
    FlipUpTo(b, CELLS)
  }

  /** Flipping swaps X and O in every cell and keeps Empty. */
  lemma FlipPlayersCells(b: BoardState)
    requires Valid(b)
    ensures Valid(FlipPlayers(b))
    ensures forall c: Coord :: c.0 < N && c.1 < N ==> Index(FlipPlayers(b), c) == Swap(Index(b, c))
  {
    FlipUpToCells(b, CELLS);
    forall c: Coord | c.0 < N && c.1 < N
      ensures Index(FlipPlayers(b), c) == Swap(Index(b, c))
    {
      CoordOfFlat(c);
    }
  }

  /** Flipping twice gives back the original board. */
  lemma {:induction false} FlipInvolution(b: BoardState)
    requires Valid(b)
    ensures Valid(FlipPlayers(b)) && FlipPlayers(FlipPlayers(b)) == b
  {
    var f := FlipPlayers(b);
    FlipUpToCells(b, CELLS);
    var ff := FlipPlayers(f);
    FlipUpToCells(f, CELLS);
    forall idx | 0 <= idx < CELLS
      ensures CellAt(ff, idx) == CellAt(b, idx)
    {
      assert CellAt(ff, idx) == Swap(CellAt(f, idx));
      assert CellAt(f, idx) == Swap(CellAt(b, idx));
    }
    Extensionality(ff, b);
  }

  /** The in-place store into the byte array of a board. */
  method SetInplace(a: array<bv8>, c: Coord, s: CellState)
    requires a.Length == BYTES && c.0 < N && c.1 < N
    modifies a
    ensures a[..] == Set(BoardState(old(a[..])), c, s).state
  {
    var idx := c.0 * N + c.1;
    CoordOfFlat(c);
    var chunk := idx / 4;
    var offset := idx % 4;
    WithFieldIsShift(a[chunk], offset, Code(s));
    StoreField(a, chunk, Shift(offset), Code(s));
  }

  /** Through the byte `a[chunk]`: clear the two bits at `sh`, then set them to `v`. */
  method StoreField(a: array<bv8>, chunk: nat, sh: bv8, v: bv8)
    requires chunk < a.Length && sh < 8
    modifies a
    ensures a[..] == old(a[..])[chunk := (old(a[chunk]) & !(3 << sh)) | (v << sh)]
  {
    a[chunk] := a[chunk] & !(3 << sh);
    a[chunk] := a[chunk] | (v << sh);
  }

  /** The in-place flip, cell by cell in row-major order. */
  method FlipPlayersInplace(a: array<bv8>)
    requires a.Length == BYTES && Valid(BoardState(a[..]))
    modifies a
    ensures a[..] == FlipPlayers(BoardState(old(a[..]))).state
  {
    ghost var b := BoardState(a[..]);
    for i := 0 to N
      invariant i * N <= CELLS
      invariant a[..] == FlipUpTo(b, i * N).state
    {
      RowBound(i);
      FlipRow(a, i, b);
    }
  }

  /** The inner loop of `flip_players_inplace`: row `i`, cell by cell. */
  method FlipRow(a: array<bv8>, i: nat, ghost b: BoardState)
    requires Valid(b) && a.Length == BYTES && i < N && i * N + N <= CELLS
    requires a[..] == FlipUpTo(b, i * N).state
    modifies a
    ensures a[..] == FlipUpTo(b, i * N + N).state
  {
    ghost var k := i * N;
    for j := 0 to N
      invariant k == i * N + j
      invariant a[..] == FlipUpTo(b, k).state
    {
      FlipCell(a, i, j, k, b);
      k := k + 1;
    }
  }

  lemma RowBound(i: nat)
    requires i < N
    ensures i * N + N == (i + 1) * N <= CELLS
  {
  }

  /** The loop body of `flip_players_inplace` for cell `(i, j)`: read the cell, store
      the other colour. */
  method FlipCell(a: array<bv8>, i: nat, j: nat, ghost idx: nat, ghost b: BoardState)
    requires Valid(b) && a.Length == BYTES && i < N && j < N && idx == i * N + j
    requires a[..] == FlipUpTo(b, idx).state
    modifies a
    ensures idx < CELLS && a[..] == FlipUpTo(b, idx + 1).state
  {
    CoordOfFlat((i, j));
    FlipUpToCells(b, idx);
    ghost var p := FlipUpTo(b, idx);
    assert BoardState(a[..]) == p;
    SwapCodeDecode(CodeAt(p.state, idx));
    var other := Swap(Index(BoardState(a[..]), (i, j)));
    assert Code(other) == SwapCode(CodeAt(p.state, idx));
    SetInplace(a, (i, j), other);
    assert Set(p, (i, j), other).state == SetCode(p.state, idx, SwapCode(CodeAt(p.state, idx)));
  }

  /* ---------- five in a row ---------- */

  /** The four scan directions `(-1, 1), (0, 1), (1, 1), (1, 0)`. */
  function DX(d: nat): int { if d == 0 then -1 else if d == 1 then 0 else 1 }
  function DY(d: nat): int { if d == 3 then 0 else 1 }

  /** The scan range for a direction component: `4..N` for -1, `0..N` for 0, `0..N-4` for 1. */
  function Lo(delta: int): nat { if delta == -1 then 4 else 0 }
  function Hi(delta: int): nat { if delta == 1 then N - 4 else N }

  predicate InBoard(x: int, y: int) { 0 <= x < N && 0 <= y < N }

  /** A start cell inside the scan ranges of direction `d`. */
  predicate InRange(d: nat, x: int, y: int)
  {
    d < 4 && Lo(DX(d)) <= x < Hi(DX(d)) && Lo(DY(d)) <= y < Hi(DY(d))
  }

  /** The ranges are exactly the start cells whose five cells all lie on the board. */
  lemma RangeIsInBounds(d: nat, x: int, y: int)
    requires d < 4
    ensures InRange(d, x, y) <==> forall k :: 0 <= k < 5 ==> InBoard(x + DX(d) * k, y + DY(d) * k)
  {
    if !InRange(d, x, y) {
      assert !InBoard(x + DX(d) * 0, y + DY(d) * 0) || !InBoard(x + DX(d) * 4, y + DY(d) * 4);
    } else {
      forall k | 0 <= k < 5
        ensures InBoard(x + DX(d) * k, y + DY(d) * k)
      {
        if d == 0 {} else if d == 1 {} else if d == 2 {} else {}
      }
    }
  }

  /** The cell at integer coordinates known to be on the board. */
  function Cell(b: BoardState, x: int, y: int): CellState
    requires Valid(b) && InBoard(x, y)
  {
    Index(b, (x as nat, y as nat))
  }

  /** The cell `k` steps from `(x, y)` along direction `d`. */
  function Along(b: BoardState, d: nat, x: int, y: int, k: nat): CellState
    requires Valid(b) && InRange(d, x, y) && k < 5
  {
    RangeIsInBounds(d, x, y);
    Cell(b, x + DX(d) * k, y + DY(d) * k)
  }

  /** Five consecutive cells equal to the non-empty `s`, from `(x, y)` along direction `d`. */
  predicate Five(b: BoardState, d: nat, x: int, y: int, s: CellState)
    requires Valid(b) && InRange(d, x, y)
  {
    s != Empty && forall k :: 0 <= k < 5 ==> Along(b, d, x, y, k) == s
  }

  /** Some line of five cells of colour `s` lies on the board. */
  ghost predicate HasFive(b: BoardState, s: CellState)
    requires Valid(b)
  {
    exists d: nat, x: int, y: int :: InRange(d, x, y) && Five(b, d, x, y, s)
  }

  /** The scan position `(d2, x2, y2)` comes at or after `(d, x, y)`. */
  predicate AtOrAfter(d: nat, x: int, y: int, d2: nat, x2: int, y2: int)
  {
    d2 > d || (d2 == d && (x2 > x || (x2 == x && y2 >= y)))
  }

  /** A scan position: a direction with its current row and column, which may sit one
      past the end of its range. */
  predicate ScanPos(d: nat, x: int, y: int)
  {
    d <= 4 && (d < 4 ==> Lo(DX(d)) <= x <= Hi(DX(d)) && Lo(DY(d)) <= y <= Hi(DY(d)))
  }

  /** What the scan of `is_win` returns when it resumes at `(d, x, y)`: the colour
      of the first five-in-a-row found from there, or Empty. */
  function WinFrom(b: BoardState, d: nat, x: int, y: int): CellState
    requires Valid(b) && ScanPos(d, x, y)
    decreases 4 - d, N - x, N - y
  {
    if d == 4 then Empty
    else if x == Hi(DX(d)) then WinFrom(b, d + 1, Lo(DX(d + 1)), Lo(DY(d + 1)))
    else if y == Hi(DY(d)) then WinFrom(b, d, x + 1, Lo(DY(d)))
    else if Five(b, d, x, y, Cell(b, x, y)) then Cell(b, x, y)
    else WinFrom(b, d, x, y + 1)
  }

  /** The colour `is_win` reports. */
  function Winner(b: BoardState): CellState
    requires Valid(b)
  {
    WinFrom(b, 0, Lo(DX(0)), Lo(DY(0)))
  }

  /** A colour the scan reports has a five-in-a-row. */
  lemma {:induction false} WinFromSound(b: BoardState, d: nat, x: int, y: int)
    requires Valid(b) && ScanPos(d, x, y)
    ensures WinFrom(b, d, x, y) != Empty ==> HasFive(b, WinFrom(b, d, x, y))
    decreases 4 - d, N - x, N - y
  {
    if d == 4 {
    } else if x == Hi(DX(d)) {
      WinFromSound(b, d + 1, Lo(DX(d + 1)), Lo(DY(d + 1)));
    } else if y == Hi(DY(d)) {
      WinFromSound(b, d, x + 1, Lo(DY(d)));
    } else if Five(b, d, x, y, Cell(b, x, y)) {
      assert InRange(d, x, y);
    } else {
      WinFromSound(b, d, x, y + 1);
    }
  }

  /** A line of five has the colour of its start cell. */
  lemma FiveHasStartColour(b: BoardState, d: nat, x: int, y: int, s: CellState)
    requires Valid(b) && InRange(d, x, y) && s != Cell(b, x, y)
    ensures !Five(b, d, x, y, s)
  {
    assert Along(b, d, x, y, 0) == Cell(b, x, y);
  }

  /** No five-in-a-row of any colour starts at `(d, x, y)` or at a later scan position. */
  ghost predicate NoFiveFrom(b: BoardState, d: nat, x: int, y: int)
    requires Valid(b)
  {
    forall d2: nat, x2: int, y2: int, s :: InRange(d2, x2, y2) && AtOrAfter(d, x, y, d2, x2, y2) ==> !Five(b, d2, x2, y2, s)
  }

  /** Past the last row of a direction, the later start cells are those of the next one. */
  lemma NoFiveNextDirection(b: BoardState, d: nat, x: int, y: int)
    requires Valid(b) && d < 4 && x == Hi(DX(d))
    requires NoFiveFrom(b, d + 1, Lo(DX(d + 1)), Lo(DY(d + 1)))
    ensures NoFiveFrom(b, d, x, y)
  {
    forall d2: nat, x2: int, y2: int, s | InRange(d2, x2, y2) && AtOrAfter(d, x, y, d2, x2, y2)
      ensures !Five(b, d2, x2, y2, s)
    {
      assert AtOrAfter(d + 1, Lo(DX(d + 1)), Lo(DY(d + 1)), d2, x2, y2);
    }
  }

  /** Past the last column of a row, the later start cells are those of the next row. */
  lemma NoFiveNextRow(b: BoardState, d: nat, x: int, y: int)
    requires Valid(b) && d < 4 && y == Hi(DY(d))
    requires NoFiveFrom(b, d, x + 1, Lo(DY(d)))
    ensures NoFiveFrom(b, d, x, y)
  {
    forall d2: nat, x2: int, y2: int, s | InRange(d2, x2, y2) && AtOrAfter(d, x, y, d2, x2, y2)
      ensures !Five(b, d2, x2, y2, s)
    {
      assert AtOrAfter(d, x + 1, Lo(DY(d)), d2, x2, y2);
    }
  }

  /** A start cell with no line of five, followed by later ones with none. */
  lemma NoFiveNextCell(b: BoardState, d: nat, x: int, y: int)
    requires Valid(b) && InRange(d, x, y)
    requires forall s :: !Five(b, d, x, y, s)
    requires NoFiveFrom(b, d, x, y + 1)
    ensures NoFiveFrom(b, d, x, y)
  {
    forall d2: nat, x2: int, y2: int, s | InRange(d2, x2, y2) && AtOrAfter(d, x, y, d2, x2, y2)
      ensures !Five(b, d2, x2, y2, s)
    {
      if d2 != d || x2 != x || y2 != y {
        assert AtOrAfter(d, x, y + 1, d2, x2, y2);
      }
    }
  }

  /** When the scan from a position reports Empty, no five-in-a-row starts at that
      position or any later one. */
  lemma {:induction false} WinFromComplete(b: BoardState, d: nat, x: int, y: int)
    requires Valid(b) && ScanPos(d, x, y)
    requires WinFrom(b, d, x, y) == Empty
    ensures NoFiveFrom(b, d, x, y)
    decreases 4 - d, N - x, N - y
  {
    if d == 4 {
    } else if x == Hi(DX(d)) {
      WinFromComplete(b, d + 1, Lo(DX(d + 1)), Lo(DY(d + 1)));
      NoFiveNextDirection(b, d, x, y);
    } else if y == Hi(DY(d)) {
      WinFromComplete(b, d, x + 1, Lo(DY(d)));
      NoFiveNextRow(b, d, x, y);
    } else {
      WinFromComplete(b, d, x, y + 1);
      forall s
        ensures !Five(b, d, x, y, s)
      {
        if s != Cell(b, x, y) {
          FiveHasStartColour(b, d, x, y, s);
        }
      }
      NoFiveNextCell(b, d, x, y);
    }
  }

  /** `is_win` reports a colour only if five equal non-empty consecutive cells of that
      colour exist, and reports Empty only if no such line exists for either colour. */
  lemma {:induction false} WinnerCorrect(b: BoardState)
    requires Valid(b)
    ensures Winner(b) != Empty ==> HasFive(b, Winner(b))
    ensures Winner(b) == Empty <==> !HasFive(b, X) && !HasFive(b, O)
  {
    WinFromSound(b, 0, Lo(DX(0)), Lo(DY(0)));
    if Winner(b) == Empty {
      WinFromComplete(b, 0, Lo(DX(0)), Lo(DY(0)));
    }
  }

  /** `is_win`: the nested scan with early return. */
  method IsWin(b: BoardState) returns (r: CellState)
    requires Valid(b)
    ensures r == Winner(b)
  {
    for d := 0 to 4
      invariant WinFrom(b, d, Lo(DX(d)), Lo(DY(d))) == Winner(b)
    {
      var found, goal := ScanDirection(b, d);
      if found {
        return goal;
      }
    }
    r := Empty;
  }

  /** The middle loop of `is_win`, over the rows of direction `d`: it stops at the
      first row holding a line of five, with its colour, which is what the scan
      reports from the start of the direction; otherwise the scan goes on with the
      next direction. */
  method ScanDirection(b: BoardState, d: nat) returns (found: bool, goal: CellState)
    requires Valid(b) && d < 4
    ensures found ==> goal == WinFrom(b, d, Lo(DX(d)), Lo(DY(d)))
    ensures !found ==> WinFrom(b, d, Lo(DX(d)), Lo(DY(d))) == WinFrom(b, d + 1, Lo(DX(d + 1)), Lo(DY(d + 1)))
  {
    for x := Lo(DX(d)) to Hi(DX(d))
      invariant WinFrom(b, d, x, Lo(DY(d))) == WinFrom(b, d, Lo(DX(d)), Lo(DY(d)))
    {
      found, goal := ScanRow(b, d, x);
      if found {
        return;
      }
      ScanRowEnd(b, d, x);
    }
    ScanDirectionEnd(b, d);
    return false, Empty;
  }

  /** The innermost loop of `is_win`, over the start cells of row `x` in direction
      `d`: it stops at the first one where a line of five begins, with its colour,
      which is what the scan reports from the start of the row; otherwise the scan
      goes on past the end of the row. */
  method ScanRow(b: BoardState, d: nat, x: int) returns (found: bool, goal: CellState)
    requires Valid(b) && d < 4 && Lo(DX(d)) <= x < Hi(DX(d))
    ensures found ==> goal == WinFrom(b, d, x, Lo(DY(d)))
    ensures !found ==> WinFrom(b, d, x, Lo(DY(d))) == WinFrom(b, d, x, Hi(DY(d)))
  {
    for y := Lo(DY(d)) to Hi(DY(d))
      invariant WinFrom(b, d, x, y) == WinFrom(b, d, x, Lo(DY(d)))
    {
      goal := Cell(b, x, y);
      ScanCell(b, d, x, y);
      if goal != Empty {
        var same := LineMatches(b, d, x, y, goal);
        if same {
          return true, goal;
        }
      }
    }
    return false, Empty;
  }

  /** At a start cell the scan reports the cell's colour if a line of five of that
      colour starts there, and otherwise moves on to the next column. */
  lemma ScanCell(b: BoardState, d: nat, x: int, y: int)
    requires Valid(b) && InRange(d, x, y)
    ensures Five(b, d, x, y, Cell(b, x, y)) ==> WinFrom(b, d, x, y) == Cell(b, x, y)
    ensures !Five(b, d, x, y, Cell(b, x, y)) ==> WinFrom(b, d, x, y) == WinFrom(b, d, x, y + 1)
    ensures Cell(b, x, y) == Empty ==> !Five(b, d, x, y, Cell(b, x, y))
  {
  }

  /** Past the last column the scan moves on to the next row. */
  lemma ScanRowEnd(b: BoardState, d: nat, x: int)
    requires Valid(b) && d < 4 && Lo(DX(d)) <= x < Hi(DX(d))
    ensures WinFrom(b, d, x, Hi(DY(d))) == WinFrom(b, d, x + 1, Lo(DY(d)))
  {
  }

  /** Past the last row the scan moves on to the next direction. */
  lemma ScanDirectionEnd(b: BoardState, d: nat)
    requires Valid(b) && d < 4
    ensures WinFrom(b, d, Hi(DX(d)), Lo(DY(d))) == WinFrom(b, d + 1, Lo(DX(d + 1)), Lo(DY(d + 1)))
  {
  }

  /** The `for k in 1..5` check of `is_win`: the four cells after the start cell
      along direction `d` all hold `goal`, the colour of the start cell. */
  method LineMatches(b: BoardState, d: nat, x: int, y: int, goal: CellState) returns (same: bool)
    requires Valid(b) && InRange(d, x, y) && goal != Empty && goal == Cell(b, x, y)
    ensures same <==> Five(b, d, x, y, goal)
  {
    assert Along(b, d, x, y, 0) == goal;
    var k := 1;
    while k < 5
      invariant 1 <= k <= 5
      invariant forall k' :: 0 <= k' < k ==> Along(b, d, x, y, k') == goal
    {
      if Along(b, d, x, y, k) != goal {
        return false;
      }
      k := k + 1;
    }
    return true;
  }

  /* ---------- the game interface ---------- */

  /** The decoded cells, in row-major order. */
  function Cells(b: BoardState): (cs: seq<CellState>)
    requires Valid(b)
    ensures |cs| == CELLS
    ensures forall j :: 0 <= j < CELLS ==> cs[j] == CellAt(b, j)
  {
    seq(CELLS, j requires 0 <= j < CELLS => CellAt(b, j))
  }

  /** The empty cells from flat index `k` on, in row-major order, as moves that
      switch the player. */
  function EmptyFrom(cs: seq<CellState>, k: nat): seq<MoveDescription<Coord>>
    requires |cs| == CELLS && k <= CELLS
    decreases CELLS - k
  {
    if k == CELLS then []
    else (if cs[k] == Empty then [MoveDescription(CoordOf(k), true)] else []) + EmptyFrom(cs, k + 1)
  }

  /** The row-major flat index of a move's cell. */
  function Flat(m: MoveDescription<Coord>): nat { m.mv.0 * N + m.mv.1 }

  /** The first move from index `k`, if `k` is empty, followed by the later ones. */
  lemma EmptyFromUnfold(cs: seq<CellState>, k: nat)
    requires |cs| == CELLS && k < CELLS
    ensures cs[k] == Empty ==> EmptyFrom(cs, k) == [MoveDescription(CoordOf(k), true)] + EmptyFrom(cs, k + 1)
    ensures cs[k] != Empty ==> EmptyFrom(cs, k) == EmptyFrom(cs, k + 1)
  {
  }

  /** Every move from index `k` is a player-switching move onto an empty cell at or
      after `k`. */
  lemma {:induction false} EmptyFromSound(cs: seq<CellState>, k: nat)
    requires |cs| == CELLS && k <= CELLS
    ensures forall m :: m in EmptyFrom(cs, k) ==>
      m.playerSwitch && m.mv.0 < N && m.mv.1 < N && k <= Flat(m) < CELLS && cs[Flat(m)] == Empty
    decreases CELLS - k
  {
    if k < CELLS {
      EmptyFromSound(cs, k + 1);
      EmptyFromUnfold(cs, k);
    }
  }

  /** Moves in strictly increasing row-major order. */
  predicate RowMajor(ms: seq<MoveDescription<Coord>>)
  {
    forall i, j :: 0 <= i < j < |ms| ==> Flat(ms[i]) < Flat(ms[j])
  }

  /** The moves from index `k` are in strictly increasing row-major order. */
  lemma {:induction false} EmptyFromSorted(cs: seq<CellState>, k: nat)
    requires |cs| == CELLS && k <= CELLS
    ensures RowMajor(EmptyFrom(cs, k))
    decreases CELLS - k
  {
    if k == CELLS {
      assert EmptyFrom(cs, k) == [];
    } else {
      var rest := EmptyFrom(cs, k + 1);
      EmptyFromSorted(cs, k + 1);
      EmptyFromUnfold(cs, k);
      if cs[k] == Empty {
        EmptyFromSound(cs, k + 1);
        var first := MoveDescription(CoordOf(k), true);
        ConsSorted(first, rest, k);
        assert EmptyFrom(cs, k) == [first] + rest;
      } else {
        assert EmptyFrom(cs, k) == rest;
      }
    }
  }

  /** A move at flat index `k` before sorted moves all after `k` keeps them sorted. */
  lemma ConsSorted(first: MoveDescription<Coord>, rest: seq<MoveDescription<Coord>>, k: nat)
    requires Flat(first) == k
    requires forall m :: m in rest ==> k < Flat(m)
    requires RowMajor(rest)
    ensures RowMajor([first] + rest)
  {
    var ms := [first] + rest;
    forall i, j | 0 <= i < j < |ms|
      ensures Flat(ms[i]) < Flat(ms[j])
    {
      assert ms[j] == rest[j - 1];
      if i == 0 {
        assert rest[j - 1] in rest;
      } else {
        assert ms[i] == rest[i - 1];
      }
    }
  }

  /** Every empty cell at or after index `k` is among the moves from `k`. */
  lemma {:induction false} EmptyFromComplete(cs: seq<CellState>, k: nat)
    requires |cs| == CELLS && k <= CELLS
    ensures forall idx :: k <= idx < CELLS && cs[idx] == Empty ==> MoveDescription(CoordOf(idx), true) in EmptyFrom(cs, k)
    decreases CELLS - k
  {
    if k < CELLS {
      EmptyFromComplete(cs, k + 1);
      EmptyFromUnfold(cs, k);
    }
  }

  /** The scan from `k` finds no move exactly when no cell at or after `k` is empty. */
  lemma {:induction false} EmptyFromNone(cs: seq<CellState>, k: nat)
    requires |cs| == CELLS && k <= CELLS
    ensures EmptyFrom(cs, k) == [] <==> forall idx :: k <= idx < CELLS ==> cs[idx] != Empty
    decreases CELLS - k
  {
    if k < CELLS {
      EmptyFromNone(cs, k + 1);
      EmptyFromUnfold(cs, k);
    }
  }

  /** `get_state`: a win by X scores 1, a win by O scores 0, a full board without a
      win scores 0.5, and otherwise the empty cells are the moves. */
  function GetState(b: BoardState): TerminationState<Coord>
    requires Valid(b)
  {
    match Winner(b)
    case X => Terminal(1.0)
    case O => Terminal(0.0)
    case Empty =>
      var moves := EmptyFrom(Cells(b), 0);
      if moves == [] then Terminal(0.5) else Moves(moves)
  }

  /** The board offers no move exactly when every cell is occupied. */
  lemma NoMovesIffFull(b: BoardState)
    requires Valid(b)
    ensures EmptyFrom(Cells(b), 0) == [] <==> forall idx :: 0 <= idx < CELLS ==> CellAt(b, idx) != Empty
  {
    EmptyFromNone(Cells(b), 0);
  }

  /** What `get_state` promises about its result kind, case by case. */
  lemma {:induction false} GetStateKinds(b: BoardState)
    requires Valid(b)
    ensures GetState(b) == Terminal(1.0) <==> Winner(b) == X
    ensures GetState(b) == Terminal(0.0) <==> Winner(b) == O
    ensures GetState(b) == Terminal(0.5) <==>
      (!HasFive(b, X) && !HasFive(b, O) && forall idx :: 0 <= idx < CELLS ==> CellAt(b, idx) != Empty)
    ensures GetState(b).Moves? <==>
      (!HasFive(b, X) && !HasFive(b, O) && exists idx :: 0 <= idx < CELLS && CellAt(b, idx) == Empty)
  {
    WinnerCorrect(b);
    NoMovesIffFull(b);
  }

  /** A cell read by coordinate is the entry of `Cells` at its flat index. */
  lemma CellsIndex(b: BoardState, c: Coord)
    requires Valid(b) && c.0 < N && c.1 < N
    ensures c.0 * N + c.1 < CELLS && Cells(b)[c.0 * N + c.1] == Index(b, c)
  {
  }

  /** A move whose flat index is an empty entry of `Cells` is onto an empty cell. */
  lemma MoveOntoEmpty(b: BoardState, m: MoveDescription<Coord>)
    requires Valid(b) && m.mv.0 < N && m.mv.1 < N && Flat(m) < CELLS && Cells(b)[Flat(m)] == Empty
    ensures Index(b, m.mv) == Empty
  {
    CellsIndex(b, m.mv);
  }

  /** Every move of a board is a player-switching move onto an empty cell. */
  lemma EmptyCellsSound(b: BoardState)
    requires Valid(b)
    ensures forall m :: m in EmptyFrom(Cells(b), 0) ==>
      m.playerSwitch && m.mv.0 < N && m.mv.1 < N && Index(b, m.mv) == Empty
  {
    var cs := Cells(b);
    EmptyFromSound(cs, 0);
    forall m | m in EmptyFrom(cs, 0)
      ensures m.playerSwitch && m.mv.0 < N && m.mv.1 < N && Index(b, m.mv) == Empty
    {
      MoveOntoEmpty(b, m);
    }
  }

  /** Every empty cell of a board is among its moves. */
  lemma EmptyCellsComplete(b: BoardState)
    requires Valid(b)
    ensures forall c: Coord :: c.0 < N && c.1 < N && Index(b, c) == Empty ==>
      MoveDescription(c, true) in EmptyFrom(Cells(b), 0)
  {
    var cs := Cells(b);
    EmptyFromComplete(cs, 0);
    forall c: Coord | c.0 < N && c.1 < N && Index(b, c) == Empty
      ensures MoveDescription(c, true) in EmptyFrom(cs, 0)
    {
      var idx := c.0 * N + c.1;
      CoordOfFlat(c);
      CellsIndex(b, c);
      assert idx < CELLS && cs[idx] == Empty;
    }
  }

  /** When `get_state` lists moves, they are exactly the empty cells, in row-major
      order, each switching the player. */
  lemma GetStateMoves(b: BoardState)
    requires Valid(b) && GetState(b).Moves?
    ensures var ms := GetState(b).moves;
      && (forall m :: m in ms ==> m.playerSwitch && m.mv.0 < N && m.mv.1 < N && Index(b, m.mv) == Empty)
      && RowMajor(ms)
      && (forall c: Coord :: c.0 < N && c.1 < N && Index(b, c) == Empty ==> MoveDescription(c, true) in ms)
  {
    EmptyCellsSound(b);
    EmptyFromSorted(Cells(b), 0);
    EmptyCellsComplete(b);
    assert GetState(b).moves == EmptyFrom(Cells(b), 0);
  }

  /** `make_move`: the mover's stone is written as X, then the colours are swapped so
      that the next player to act is again X. */
  function MakeMove(b: BoardState, m: Coord): BoardState
    requires Valid(b) && m.0 < N && m.1 < N
  {
    SetThenIndex(b, m, X);
    FlipPlayers(Set(b, m, X))
  }

  /** After a move its cell holds O and every other cell has its colour swapped. */
  lemma {:induction false} MakeMoveCells(b: BoardState, m: Coord)
    requires Valid(b) && m.0 < N && m.1 < N
    ensures Valid(MakeMove(b, m))
    ensures Index(MakeMove(b, m), m) == O
    ensures forall c: Coord :: c.0 < N && c.1 < N && c != m ==> Index(MakeMove(b, m), c) == Swap(Index(b, c))
  {
    SetThenIndex(b, m, X);
    FlipPlayersCells(Set(b, m, X));
  }
}
