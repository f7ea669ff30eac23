/** The text buffer `curText` (two 16-character rows, concatenated), the dirty mask
    `gblDirtyBits` with one bit per buffer position, and the write cursor
    `inputCursor`, as values. The array `curText` is declared with 33 cells; the last
    one only holds the string terminator and is not part of this value. */
module TextBuffer {
  import opened Machine

  const SIZE: nat := 32
  /** ' ', the character `clearScreen` fills the buffer with. */
  const BLANK: byte := 32

  datatype Text = Text(cells: seq<byte>, dirty: Bits, cursor: byte) {
    /** SETPOS can leave the cursor at 32 (see RequestedCursor), one past the buffer. */
    predicate Valid() {
      |cells| == SIZE && |dirty| == SIZE && cursor as nat <= SIZE
    }

    /** A character can be stored at the cursor. */
    predicate Writable() {
      Valid() && cursor as nat < SIZE
    }
  }

  /** `inputCursor==31?0:inputCursor+1`: the cursor after a character write. */
  function Advance(c: byte): (r: byte)
    requires c < 32
    ensures r as nat == (c as nat + 1) % SIZE
  {
    if c == 31 then 0 else c + 1
  }

  /** One character write at the cursor (`curText[inputCursor] = input`,
      `bit_set(gblDirtyBits, inputCursor)`, then Advance). */
  function Write(t: Text, b: byte): (r: Text)
    requires t.Writable()
    ensures r.Writable()
  {
    Text(t.cells[t.cursor := b], SetBit(t.dirty, t.cursor as nat), Advance(t.cursor))
  }

  /** A write at cursor c stores b in cell c and marks c dirty; every other cell and
      every other dirty bit is unchanged; the cursor moves on, wrapping from 31 to 0. */
  lemma WriteSpec(t: Text, b: byte)
    requires t.Writable()
    ensures Write(t, b).cells[t.cursor] == b
    ensures forall j :: 0 <= j < SIZE && j != t.cursor as nat ==> Write(t, b).cells[j] == t.cells[j]
    ensures forall j :: 0 <= j < SIZE ==> (TestBit(Write(t, b).dirty, j) <==> j == t.cursor as nat || TestBit(t.dirty, j))
    ensures Write(t, b).cursor == if t.cursor == 31 then 0 else t.cursor + 1
  {}

  /** Several character writes in a row, first byte first. */
  function WriteAll(t: Text, bs: seq<byte>): (r: Text)
    requires t.Writable()
    ensures r.Writable()
    decreases |bs|
  {
    if bs == [] then t else Write(WriteAll(t, bs[..|bs| - 1]), bs[|bs| - 1])
  }

  lemma WriteAllSnoc(t: Text, bs: seq<byte>, b: byte)
    requires t.Writable()
    ensures WriteAll(t, bs + [b]) == Write(WriteAll(t, bs), b)
  {
    assert (bs + [b])[..|bs|] == bs;
  }

  /** How many writes after one at cursor c the write stream reaches position j. */
  function Offset(c: nat, j: nat): nat {
    (j - c) % SIZE
  }

  lemma OffsetOfNext(c: nat, n: nat, j: nat)
    requires c < SIZE && n < SIZE && j < SIZE
    ensures Offset(c, j) == n <==> j == (c + n) % SIZE
  {}

  /** Up to 32 writes from cursor c: the k-th byte lands in position (c + k) mod 32,
      exactly the positions written become dirty (no other bit changes), every other
      cell keeps its character, and the cursor ends |bs| positions further on. */
  lemma {:induction false} WriteAllSpec(t: Text, bs: seq<byte>)
    requires t.Writable() && |bs| <= SIZE
    ensures WriteAll(t, bs).cursor as nat == (t.cursor as nat + |bs|) % SIZE
    ensures forall j :: 0 <= j < SIZE ==>
      WriteAll(t, bs).cells[j] == if Offset(t.cursor as nat, j) < |bs| then bs[Offset(t.cursor as nat, j)] else t.cells[j]
    ensures forall j :: 0 <= j < SIZE ==>
      (TestBit(WriteAll(t, bs).dirty, j) <==> Offset(t.cursor as nat, j) < |bs| || TestBit(t.dirty, j))
    decreases |bs|
  {
    if bs != [] {
      var n := |bs| - 1;
      var init := bs[..n];
      var prev := WriteAll(t, init);
      WriteAllSpec(t, init);
      var c := t.cursor as nat;
      var p := prev.cursor as nat;
      var r := Write(prev, bs[n]);
      assert WriteAll(t, bs) == r;
      WriteSpec(prev, bs[n]);
      ModSucc(c + n);
      assert r.cursor as nat == (p + 1) % SIZE;
      forall j | 0 <= j < SIZE
        ensures r.cells[j] == if Offset(c, j) < |bs| then bs[Offset(c, j)] else t.cells[j]
        ensures TestBit(r.dirty, j) <==> Offset(c, j) < |bs| || TestBit(t.dirty, j)
      {
        WriteAllStepAt(c, n, j, p);
      }
    }
  }

  lemma ModSucc(x: nat)
    ensures (x % SIZE + 1) % SIZE == (x + 1) % SIZE
  {}

  lemma WriteAllStepAt(c: nat, n: nat, j: nat, p: nat)
    requires c < SIZE && n < SIZE && j < SIZE && p == (c + n) % SIZE
    ensures j == p <==> Offset(c, j) == n
    ensures Offset(c, j) < n + 1 <==> Offset(c, j) < n || j == p
  {
    OffsetOfNext(c, n, j);
  }

  /** `clearScreen`'s effect on the text: cursor 0, 32 blanks, all 32 bits dirty. */
  function Cleared(): (t: Text)
    ensures t.Writable()
  {
    Text(seq(SIZE, _ => BLANK), Ones(SIZE), 0)
  }

  lemma ClearedSpec()
    ensures forall j :: 0 <= j < SIZE ==> Cleared().cells[j] == BLANK && TestBit(Cleared().dirty, j)
    ensures PopCount(Cleared().dirty) == SIZE
    ensures Cleared().cursor == 0
  {
    ConstantBits(SIZE);
    CountFromOnes(SIZE, 0);
  }

  /** SETPOS: the payload is a 1-based position (`if (gblNewLCDPos>0) gblNewLCDPos--`),
      and a result above 32 is replaced by 0 (`if (gblNewLCDPos>32) gblNewLCDPos=0`). */
  function RequestedCursor(b: byte): byte {
    var p := if b > 0 then b - 1 else b;
    if p > 32 then 0 else p
  }

  /** The new cursor is 0 for payload 0, payload - 1 for payloads 1..33 and 0 above
      that: it never exceeds 32, and payload 33 gives 32, one past the last cell. */
  lemma RequestedCursorSpec(b: byte)
    ensures RequestedCursor(b) <= 32
    ensures b == 0 ==> RequestedCursor(b) == 0
    ensures 1 <= b <= 33 ==> RequestedCursor(b) == b - 1
    ensures b > 33 ==> RequestedCursor(b) == 0
    ensures RequestedCursor(b) == 32 <==> b == 33
  {}
}
