/** The end of a slot as it lies in memory (src/reactor/reactorServer.cpp:39-40): the 128 bytes of `buf`, and
    right behind them the four bytes of `len`. What the NUL of recvdata does is derived from that. */
module SlotMemory {
  import opened Reactor

  const LEN_SIZE: int := 4

  function Byte(x: int): char
  {
    (x % 256) as char
  }

  /** The bytes of an int that is not negative. */
  function Bytes(x: int, layout: Layout): (b: string)
    requires 0 <= x <= 0x7FFF_FFFF
    ensures |b| == LEN_SIZE
  {
    var x1 := x / 256;
    var x2 := x1 / 256;
    var x3 := x2 / 256;
    if layout == HighByteFirst then [Byte(x3), Byte(x2), Byte(x1), Byte(x)] else [Byte(x), Byte(x1), Byte(x2), Byte(x3)]
  }

  function Join(b0: char, b1: char, b2: char, b3: char): int {
    b0 as int + 256 * (b1 as int + 256 * (b2 as int + 256 * (b3 as int)))
  }

  /** The int four bytes stand for, the highest of them being below 128. */
  function Value(b: string, layout: Layout): int
    requires |b| == LEN_SIZE
  {
    if layout == HighByteFirst then Join(b[3], b[2], b[1], b[0]) else Join(b[0], b[1], b[2], b[3])
  }

  lemma JoinSplit(x: int)
    requires 0 <= x <= 0x7FFF_FFFF
    ensures Join(Byte(x), Byte(x / 256), Byte(x / 256 / 256), Byte(x / 256 / 256 / 256)) == x
  {
    var x1 := x / 256;
    var x2 := x1 / 256;
    var x3 := x2 / 256;
    assert x3 < 256;
    assert Byte(x3) as int == x3;
    assert Byte(x2) as int + 256 * x3 == x2;
    assert Byte(x1) as int + 256 * x2 == x1;
    assert Byte(x) as int + 256 * x1 == x;
  }

  /** What is written to `len` is read back. */
  lemma ValueOfBytes(x: int, layout: Layout)
    requires 0 <= x <= 0x7FFF_FFFF
    ensures Value(Bytes(x, layout), layout) == x
  {
    JoinSplit(x);
  }

  function Memory(slot: Slot, layout: Layout): (m: string)
    requires |slot.buf| == BUFLEN && 0 <= slot.len <= 0x7FFF_FFFF
    ensures |m| == BUFLEN + LEN_SIZE
  {
    slot.buf + Bytes(slot.len, layout)
  }

  function FromMemory(slot: Slot, m: string, layout: Layout): Slot
    requires |m| == BUFLEN + LEN_SIZE
  {
    slot.(buf := m[..BUFLEN], len := Value(m[BUFLEN..], layout))
  }

  /** `ev->buf[k] = c`, wherever that is. */
  function StoreByte(slot: Slot, k: int, c: char, layout: Layout): Slot
    requires |slot.buf| == BUFLEN && 0 <= slot.len <= 0x7FFF_FFFF && 0 <= k < BUFLEN + LEN_SIZE
  {
    FromMemory(slot, Memory(slot, layout)[k := c], layout)
  }

  lemma FirstByteCleared(x: int, layout: Layout)
    requires 0 <= x <= BUFLEN
    ensures Value(Bytes(x, layout)[0 := '\0'], layout) == if layout == HighByteFirst then x else 0
  {
    assert x / 256 == 0 && 0 / 256 == 0;
    assert Byte(0) as int == 0 && Byte(x) as int == x;
  }

  /** The store of the NUL behind n bytes read: inside the buffer it ends the string; at its end it
      changes a length of 128 into 0 where the low byte comes first, and nothing where the high byte does. */
  lemma EndStringIsTheStore(slot: Slot, n: int, layout: Layout)
    requires |slot.buf| == BUFLEN && slot.len == n && 0 < n <= BUFLEN && layout != NulDropped
    ensures StoreByte(slot, n, '\0', layout) == EndString(slot, n, layout)
  {
    var m := Memory(slot, layout);
    ValueOfBytes(n, layout);
    FirstByteCleared(n, layout);
    if n < BUFLEN {
      assert m[n := '\0'][..BUFLEN] == slot.buf[n := '\0'];
      assert m[n := '\0'][BUFLEN..] == Bytes(n, layout);
    } else {
      assert m[n := '\0'][..BUFLEN] == slot.buf;
      assert m[n := '\0'][BUFLEN..] == Bytes(n, layout)[0 := '\0'];
    }
  }
}
