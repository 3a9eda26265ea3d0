/** The AT24C256 memory as its bus transfers see it. */
module EepromSpec {
  import opened RtDef

  type Byte = bv8

  const PAGE: nat := 64

  const SIZE: nat := 32768

  /** Two messages go over the bus in a good transfer. */
  const ALL_SENT: int := 2

  /** How a transfer ends: the number that the bus driver returns, and how many bytes got through when it broke off. */
  datatype Transfer = Transfer(sent: int, moved: nat)

  function Moved(t: Transfer, n: nat): (m: nat)
    ensures m <= n
  {
    if t.sent == ALL_SENT || t.moved > n then n else t.moved
  }

  datatype Result = Ok | Error

  /** The address that the device takes from the two address bytes. */
  function Cell(addr: nat): (c: nat)
    ensures c < SIZE
  {
    addr % 0x1_0000 % SIZE
  }

  /** Byte by byte, to one cell after the other. */
  function Flat(mem: seq<Byte>, addr: nat, data: seq<Byte>): (r: seq<Byte>)
    requires |mem| == SIZE
    ensures |r| == SIZE
    decreases |data|
  {
    if data == [] then mem else Flat(mem[Cell(addr) := data[0]], addr + 1, data[1..])
  }

  /** The device counts on inside the page: after its last cell comes its first. */
  function NextInPage(addr: nat): nat {
    if (addr + 1) % PAGE == 0 then addr + 1 - PAGE else addr + 1
  }

  /** One write transfer, as the device performs it. */
  function PageWrite(mem: seq<Byte>, addr: nat, data: seq<Byte>): (r: seq<Byte>)
    requires |mem| == SIZE
    ensures |r| == SIZE
    decreases |data|
  {
    if data == [] then mem else PageWrite(mem[Cell(addr) := data[0]], NextInPage(addr), data[1..])
  }

  function FlatRead(mem: seq<Byte>, addr: nat, n: nat): (r: seq<Byte>)
    requires |mem| == SIZE
    ensures |r| == n
    decreases n
  {
    if n == 0 then [] else [mem[Cell(addr)]] + FlatRead(mem, addr + 1, n - 1)
  }

  /** One read transfer, on a device that wraps inside the page for reads as well. */
  function PageRead(mem: seq<Byte>, addr: nat, n: nat): (r: seq<Byte>)
    requires |mem| == SIZE
    ensures |r| == n
    decreases n
  {
    if n == 0 then [] else [mem[Cell(addr)]] + PageRead(mem, NextInPage(addr), n - 1)
  }

  /** A write transfer that may break off: the bytes that got through are stored. */
  function Stored(mem: seq<Byte>, addr: nat, data: seq<Byte>, t: Transfer): (r: seq<Byte>)
    requires |mem| == SIZE
    ensures |r| == SIZE
  {
    PageWrite(mem, addr, data[..Moved(t, |data|)])
  }

  /** A read transfer that may break off: the rest of the buffer keeps its bytes. */
  function Fetched(mem: seq<Byte>, addr: nat, former: seq<Byte>, t: Transfer): (r: seq<Byte>)
    requires |mem| == SIZE
    ensures |r| == |former|
  {
    var m := Moved(t, |former|);
    PageRead(mem, addr, m) + former[m..]
  }

  /** The room that is left in the page of `addr`. */
  function Room(addr: nat): (n: nat)
    ensures 0 < n <= PAGE
  {
    PAGE - addr % PAGE
  }

  lemma NextStays(addr: nat)
    requires Room(addr) > 1
    ensures NextInPage(addr) == addr + 1 && Room(addr + 1) == Room(addr) - 1
  {
  }

  /** A transfer that stays inside one page does not see the wrap. */
  lemma {:induction false} InsidePage(mem: seq<Byte>, addr: nat, data: seq<Byte>)
    requires |mem| == SIZE && |data| <= Room(addr)
    ensures PageWrite(mem, addr, data) == Flat(mem, addr, data)
    decreases |data|
  {
    hide Room, NextInPage, Cell;
    if |data| > 1 {
      NextStays(addr);
      InsidePage(mem[Cell(addr) := data[0]], addr + 1, data[1..]);
    }
  }

  lemma {:induction false} InsidePageRead(mem: seq<Byte>, addr: nat, n: nat)
    requires |mem| == SIZE && n <= Room(addr)
    ensures PageRead(mem, addr, n) == FlatRead(mem, addr, n)
    decreases n
  {
    hide Room, NextInPage, Cell;
    if n > 1 {
      NextStays(addr);
      InsidePageRead(mem, addr + 1, n - 1);
    }
  }

  /** A transfer touches no cell outside of the page it starts in. */
  lemma {:induction false} PageOnly(mem: seq<Byte>, addr: nat, data: seq<Byte>, c: nat)
    requires |mem| == SIZE && addr < SIZE && c < SIZE && c / PAGE != addr / PAGE
    ensures PageWrite(mem, addr, data)[c] == mem[c]
    decreases |data|
  {
    if data != [] {
      SamePage(addr);
      PageOnly(mem[Cell(addr) := data[0]], NextInPage(addr), data[1..], c);
    }
  }

  lemma SamePage(addr: nat)
    requires addr < SIZE
    ensures NextInPage(addr) < SIZE && NextInPage(addr) / PAGE == addr / PAGE
  {
  }

  /** A write transfer is a flat write on every memory if and only if it stays inside its page. */
  lemma WrapMatters(addr: nat, data: seq<Byte>)
    requires addr + |data| <= SIZE
    ensures (forall mem: seq<Byte> :: |mem| == SIZE ==> PageWrite(mem, addr, data) == Flat(mem, addr, data)) <==> |data| <= Room(addr)
  {
    if |data| <= Room(addr) {
      forall mem: seq<Byte> | |mem| == SIZE
        ensures PageWrite(mem, addr, data) == Flat(mem, addr, data)
      {
        InsidePage(mem, addr, data);
      }
    } else {
      var mem, c := seq(SIZE, i => !data[Room(addr)]), addr + Room(addr);
      PageOnly(mem, addr, data, c);
      FlatCells(mem, addr, data, c);
      Differ(data[Room(addr)]);
      assert PageWrite(mem, addr, data)[c] != Flat(mem, addr, data)[c];
    }
  }

  lemma Differ(b: Byte)
    ensures !b != b
  {
  }

  lemma {:induction false} FlatAppend(mem: seq<Byte>, addr: nat, x: seq<Byte>, y: seq<Byte>)
    requires |mem| == SIZE
    ensures Flat(Flat(mem, addr, x), addr + |x|, y) == Flat(mem, addr, x + y)
    decreases |x|
  {
    if x == [] {
      assert x + y == y;
    } else {
      assert (x + y)[1..] == x[1..] + y;
      FlatAppend(mem[Cell(addr) := x[0]], addr + 1, x[1..], y);
    }
  }

  lemma {:induction false} FlatReadAppend(mem: seq<Byte>, addr: nat, n: nat, m: nat)
    requires |mem| == SIZE
    ensures FlatRead(mem, addr, n) + FlatRead(mem, addr + n, m) == FlatRead(mem, addr, n + m)
    decreases n
  {
    hide Cell;
    if n == 0 {
      assert [] + FlatRead(mem, addr, m) == FlatRead(mem, addr, m);
    } else {
      FlatReadAppend(mem, addr + 1, n - 1, m);
      assert FlatRead(mem, addr, n) + FlatRead(mem, addr + n, m)
          == [mem[Cell(addr)]] + (FlatRead(mem, addr + 1, n - 1) + FlatRead(mem, addr + n, m));
    }
  }

  /** A flat write changes the cells it names and no others. */
  lemma {:induction false} FlatCells(mem: seq<Byte>, addr: nat, data: seq<Byte>, c: nat)
    requires |mem| == SIZE && addr + |data| <= SIZE && c < SIZE
    ensures Flat(mem, addr, data)[c] == if addr <= c < addr + |data| then data[c - addr] else mem[c]
    decreases |data|
  {
    if data != [] {
      FlatCells(mem[Cell(addr) := data[0]], addr + 1, data[1..], c);
    }
  }

  lemma FlatIs(mem: seq<Byte>, addr: nat, data: seq<Byte>)
    requires |mem| == SIZE && addr + |data| <= SIZE
    ensures Flat(mem, addr, data) == mem[..addr] + data + mem[addr + |data|..]
  {
    hide Flat, Cell;
    var r := mem[..addr] + data + mem[addr + |data|..];
    forall c: nat | c < SIZE
      ensures Flat(mem, addr, data)[c] == r[c]
    {
      FlatCells(mem, addr, data, c);
      assert r[c] == if c < addr then mem[c] else if c < addr + |data| then data[c - addr] else mem[c];
    }
  }

  lemma {:induction false} FlatReadAt(mem: seq<Byte>, addr: nat, n: nat, k: nat)
    requires |mem| == SIZE && k < n
    ensures FlatRead(mem, addr, n)[k] == mem[Cell(addr + k)]
    decreases n
  {
    if k > 0 {
      FlatReadAt(mem, addr + 1, n - 1, k - 1);
    }
  }

  lemma ReadBack(mem: seq<Byte>, addr: nat, data: seq<Byte>)
    requires |mem| == SIZE && addr + |data| <= SIZE
    ensures FlatRead(Flat(mem, addr, data), addr, |data|) == data
  {
    var m := Flat(mem, addr, data);
    forall k: nat | k < |data|
      ensures FlatRead(m, addr, |data|)[k] == data[k]
    {
      FlatReadAt(m, addr, |data|, k);
      FlatCells(mem, addr, data, addr + k);
    }
  }

  // ---- the range check ----

  /** The check in front of every operation, in 32-bit arithmetic. */
  predicate InRange(addr: nat, n: nat) {
    (addr + n) % WORD <= SIZE
  }

  /** It lets through exactly the ranges inside the device, and those whose end wraps around. */
  lemma RangeCheck(addr: nat, n: nat)
    requires addr < WORD && n < 0x1_0000
    ensures InRange(addr, n) <==> addr + n <= SIZE || WORD <= addr + n <= WORD + SIZE
  {
  }

  /** A range far outside of the device that passes. */
  lemma RangeCheckExample()
    ensures InRange(0xFFFF_FFFF, 2)
  {
  }

  // ---- page by page ----

  /** at24cxx_page_write, chunk by chunk: `bus` says how each transfer ends, `room` is what is left
      in the current page.  A transfer that sends no message at all counts as an error. */
  function WriteChunks(mem: seq<Byte>, addr: nat, data: seq<Byte>, room: nat, bus: seq<Transfer>): (r: (seq<Byte>, Result))
    requires |mem| == SIZE && room > 0 && |bus| >= |data|
    ensures |r.0| == SIZE
    decreases |data|
  {
    if data == [] then (mem, Ok) else
    var n := if |data| > room then room else |data|;
    var mem' := Stored(mem, addr, data[..n], bus[0]);
    var (rest, r) := WriteChunks(mem', addr + n, data[n..], PAGE, bus[1..]);
    (rest, if bus[0].sent == 0 then Error else r)
  }

  /** The number of chunks that a write is split into. */
  function Chunks(n: nat, room: nat): (r: nat)
    requires room > 0
    ensures r <= n
    decreases n
  {
    if n == 0 then 0 else if n > room then 1 + Chunks(n - room, PAGE) else 1
  }

  /** Every transfer of a split write moves its whole chunk. */
  predicate AllMoved(n: nat, room: nat, bus: seq<Transfer>)
    requires room > 0 && |bus| >= n
    decreases n
  {
    n == 0 ||
    var m := if n > room then room else n;
    Moved(bus[0], m) == m && AllMoved(n - m, PAGE, bus[1..])
  }

  lemma {:induction false} GoodBus(n: nat, room: nat, bus: seq<Transfer>)
    requires room > 0 && |bus| >= n && forall i :: 0 <= i < Chunks(n, room) ==> bus[i].sent == ALL_SENT
    ensures AllMoved(n, room, bus)
    decreases n
  {
    if n > room {
      GoodBus(n - room, PAGE, bus[1..]);
    }
  }

  /** When all its transfers get through, the split into pages is invisible: the memory is that of the flat write. */
  lemma ChunksFlat(mem: seq<Byte>, addr: nat, data: seq<Byte>, room: nat, bus: seq<Transfer>)
    requires |mem| == SIZE && |bus| >= |data| && room == Room(addr)
    requires forall i :: 0 <= i < Chunks(|data|, room) ==> bus[i].sent == ALL_SENT
    ensures WriteChunks(mem, addr, data, room, bus) == (Flat(mem, addr, data), Ok)
  {
    GoodBus(|data|, room, bus);
    MovedFlat(mem, addr, data, room, bus);
    ReportedErrors(mem, addr, data, room, bus);
  }

  /** It is so as well when transfers end with an error but have moved their chunks. */
  lemma {:induction false} MovedFlat(mem: seq<Byte>, addr: nat, data: seq<Byte>, room: nat, bus: seq<Transfer>)
    requires |mem| == SIZE && |bus| >= |data| && room == Room(addr) && AllMoved(|data|, room, bus)
    ensures WriteChunks(mem, addr, data, room, bus).0 == Flat(mem, addr, data)
    decreases |data|
  {
    if data != [] {
      var n := if |data| > room then room else |data|;
      InsidePage(mem, addr, data[..n]);
      assert data[..n][..n] == data[..n];
      var mem' := Stored(mem, addr, data[..n], bus[0]);
      FlatAppend(mem, addr, data[..n], data[n..]);
      assert data == data[..n] + data[n..];
      if n < |data| {
        NextPage(addr);
        MovedFlat(mem', addr + n, data[n..], PAGE, bus[1..]);
      } else {
        assert data[n..] == [];
      }
    }
  }

  lemma NextPage(addr: nat)
    ensures Room(addr + Room(addr)) == PAGE
  {
  }

  /** The write reports an error exactly when some transfer bus nothing; a transfer that breaks off
      in any other way is not reported. */
  lemma {:induction false} ReportedErrors(mem: seq<Byte>, addr: nat, data: seq<Byte>, room: nat, bus: seq<Transfer>)
    requires |mem| == SIZE && |bus| >= |data| && room > 0
    ensures WriteChunks(mem, addr, data, room, bus).1 == Error <==> exists i :: 0 <= i < Chunks(|data|, room) && bus[i].sent == 0
    decreases |data|
  {
    if data != [] {
      var n := if |data| > room then room else |data|;
      var mem' := Stored(mem, addr, data[..n], bus[0]);
      ReportedErrors(mem', addr + n, data[n..], PAGE, bus[1..]);
      SomeLater(bus, Chunks(|data|, room));
      assert Chunks(|data|, room) == 1 + Chunks(|data[n..]|, PAGE);
    }
  }

  /** A transfer inside a page changes the cells of the bytes that got through and no others. */
  lemma StoredCells(mem: seq<Byte>, addr: nat, data: seq<Byte>, t: Transfer, c: nat)
    requires |mem| == SIZE && |data| <= Room(addr) && addr + |data| <= SIZE && c < SIZE
    ensures Stored(mem, addr, data, t)[c] == if addr <= c < addr + Moved(t, |data|) then data[c - addr] else mem[c]
  {
    var m := Moved(t, |data|);
    InsidePage(mem, addr, data[..m]);
    FlatCells(mem, addr, data[..m], c);
  }

  /** A split write leaves the cells around its range alone. */
  lemma {:induction false} ChunksFrame(mem: seq<Byte>, addr: nat, data: seq<Byte>, room: nat, bus: seq<Transfer>, c: nat)
    requires |mem| == SIZE && |bus| >= |data| && room == Room(addr) && addr + |data| <= SIZE
    requires c < SIZE && (c < addr || addr + |data| <= c)
    ensures WriteChunks(mem, addr, data, room, bus).0[c] == mem[c]
    decreases |data|
  {
    hide Room, Stored, Moved;
    if data != [] {
      var n := if |data| > room then room else |data|;
      StoredCells(mem, addr, data[..n], bus[0], c);
      var mem' := Stored(mem, addr, data[..n], bus[0]);
      if n < |data| {
        NextPage(addr);
        ChunksFrame(mem', addr + n, data[n..], PAGE, bus[1..], c);
      } else {
        assert data[n..] == [];
      }
    }
  }

  /** A chunk that is not moved whole leaves a cell as it was. */
  lemma {:induction false} LostChunk(mem: seq<Byte>, addr: nat, data: seq<Byte>, room: nat, bus: seq<Transfer>) returns (k: nat)
    requires |mem| == SIZE && |bus| >= |data| && room == Room(addr) && addr + |data| <= SIZE
    requires !AllMoved(|data|, room, bus)
    ensures k < |data| && WriteChunks(mem, addr, data, room, bus).0[addr + k] == mem[addr + k]
    decreases |data|
  {
    hide Room, Stored, Moved;
    var n := if |data| > room then room else |data|;
    var mem', m := Stored(mem, addr, data[..n], bus[0]), Moved(bus[0], n);
    if m < n {
      k := m;
      StoredCells(mem, addr, data[..n], bus[0], addr + k);
      if n < |data| {
        NextPage(addr);
        ChunksFrame(mem', addr + n, data[n..], PAGE, bus[1..], addr + k);
      } else {
        assert data[n..] == [];
      }
    } else {
      NextPage(addr);
      var j := LostChunk(mem', addr + n, data[n..], PAGE, bus[1..]);
      k := n + j;
      StoredCells(mem, addr, data[..n], bus[0], addr + k);
    }
  }

  /** A success that the split write reports can be relied upon, whatever the memory and the data, if and
      only if every transfer moved its chunk or some transfer sent nothing and so no success is reported. */
  lemma OkTrusted(addr: nat, n: nat, bus: seq<Transfer>)
    requires addr + n <= SIZE && |bus| >= n
    ensures
      (forall mem: seq<Byte>, data: seq<Byte> :: |mem| == SIZE && |data| == n ==>
        var (after, r) := WriteChunks(mem, addr, data, Room(addr), bus);
        r == Ok ==> after == Flat(mem, addr, data))
      <==>
      (AllMoved(n, Room(addr), bus) || (exists i :: 0 <= i < Chunks(n, Room(addr)) && bus[i].sent == 0))
  {
    hide Room, Flat, PageWrite, WriteChunks, Chunks, AllMoved;
    var chunks := Chunks(n, Room(addr));
    forall mem: seq<Byte>, data: seq<Byte> | |mem| == SIZE && |data| == n
      ensures AllMoved(n, Room(addr), bus) || (exists i :: 0 <= i < chunks && bus[i].sent == 0) ==>
        var (after, r) := WriteChunks(mem, addr, data, Room(addr), bus);
        r == Ok ==> after == Flat(mem, addr, data)
    {
      ReportedErrors(mem, addr, data, Room(addr), bus);
      if AllMoved(n, Room(addr), bus) {
        MovedFlat(mem, addr, data, Room(addr), bus);
      }
    }
    if !AllMoved(n, Room(addr), bus) && !exists i :: 0 <= i < chunks && bus[i].sent == 0 {
      var mem, data := seq(SIZE, _ => 0 as Byte), seq(n, _ => 1 as Byte);
      ReportedErrors(mem, addr, data, Room(addr), bus);
      var k := LostChunk(mem, addr, data, Room(addr), bus);
      FlatCells(mem, addr, data, addr + k);
      assert WriteChunks(mem, addr, data, Room(addr), bus).0[addr + k] != Flat(mem, addr, data)[addr + k];
    }
  }

  /** A bus error code is below zero, so a write that stores nothing can report success. */
  lemma SilentLoss(mem: seq<Byte>, b: Byte)
    requires |mem| == SIZE && mem[0] != b
    ensures WriteChunks(mem, 0, [b], Room(0), [Transfer(-1, 0)]) == (mem, Ok) && Flat(mem, 0, [b]) != mem
  {
    assert [b][1..] == [];
    assert Flat(mem, 0, [b]) == mem[0 := b];
  }

  // ---- reading page by page ----

  /** at24cxx_page_read, chunk by chunk, into a buffer that holds `former`. */
  function ReadChunks(mem: seq<Byte>, addr: nat, former: seq<Byte>, room: nat, bus: seq<Transfer>): (r: (seq<Byte>, Result))
    requires |mem| == SIZE && room > 0 && |bus| >= |former|
    ensures |r.0| == |former|
    decreases |former|
  {
    if former == [] then ([], Ok) else
    var n := if |former| > room then room else |former|;
    var chunk := Fetched(mem, addr, former[..n], bus[0]);
    var (rest, r) := ReadChunks(mem, addr + n, former[n..], PAGE, bus[1..]);
    (chunk + rest, if bus[0].sent == 0 then Error else r)
  }

  /** When all its transfers get through, the split read gives the bytes of the flat read. */
  lemma {:induction false} ReadChunksFlat(mem: seq<Byte>, addr: nat, former: seq<Byte>, room: nat, bus: seq<Transfer>)
    requires |mem| == SIZE && |bus| >= |former| && room == Room(addr)
    requires forall i :: 0 <= i < Chunks(|former|, room) ==> bus[i].sent == ALL_SENT
    ensures ReadChunks(mem, addr, former, room, bus) == (FlatRead(mem, addr, |former|), Ok)
    decreases |former|
  {
    hide Room, PageRead;
    if former != [] {
      var n := if |former| > room then room else |former|;
      InsidePageRead(mem, addr, n);
      assert former[..n][n..] == [] && PageRead(mem, addr, n) + [] == PageRead(mem, addr, n);
      FlatReadAppend(mem, addr, n, |former| - n);
      if n < |former| {
        NextPage(addr);
        ReadChunksFlat(mem, addr + n, former[n..], PAGE, bus[1..]);
      } else {
        assert former[n..] == [];
      }
    }
  }

  /** The split read reports an error exactly when some transfer bus nothing. */
  lemma {:induction false} ReportedReadErrors(mem: seq<Byte>, addr: nat, former: seq<Byte>, room: nat, bus: seq<Transfer>)
    requires |mem| == SIZE && |bus| >= |former| && room > 0
    ensures ReadChunks(mem, addr, former, room, bus).1 == Error <==> exists i :: 0 <= i < Chunks(|former|, room) && bus[i].sent == 0
    decreases |former|
  {
    hide Fetched;
    if former != [] {
      var n := if |former| > room then room else |former|;
      ReportedReadErrors(mem, addr + n, former[n..], PAGE, bus[1..]);
      SomeLater(bus, Chunks(|former|, room));
      assert Chunks(|former|, room) == 1 + Chunks(|former[n..]|, PAGE);
    }
  }

  /** Some entry is zero: the first, or one of the others. */
  lemma SomeLater(bus: seq<Transfer>, n: nat)
    requires 0 < n <= |bus|
    ensures (exists i :: 0 <= i < n && bus[i].sent == 0) <==> bus[0].sent == 0 || (exists j :: 0 <= j < n - 1 && bus[1..][j].sent == 0)
  {
    forall i | 0 < i < n && bus[i].sent == 0
      ensures exists j :: 0 <= j < n - 1 && bus[1..][j].sent == 0
    {
      assert bus[1..][i-1].sent == 0;
    }
  }

  // ---- byte by byte ----

  /** How many bytes at24cxx_write sends: the length is compared with a 16-bit counter after the first
      attempt, so that a length of zero stops a failed attempt and otherwise goes once around. */
  function Written(num: nat, failures: seq<nat>): (n: nat)
    requires |failures| > 0
  {
    if num > 0 then num else if failures[0] > 0 then 0 else 0x1_0000
  }
}

/** at24cxx.c: writes and reads that are split into pages. */
module Eeprom {
  import opened EepromSpec
  import opened RtDef

  /** What is left of a write of which `all` is the outcome. */
  ghost predicate StillToDo(all: (seq<Byte>, Result), mem: seq<Byte>, addr: nat, data: seq<Byte>, room: nat, bus: seq<Transfer>, r: Result) {
    && |mem| == SIZE && room > 0 && |bus| >= |data|
    && var rest := WriteChunks(mem, addr, data, room, bus);
       all == (rest.0, if r == Error then Error else rest.1)
  }

  lemma ChunkDone(all: (seq<Byte>, Result), mem: seq<Byte>, addr: nat, data: seq<Byte>, room: nat, bus: seq<Transfer>, r: Result)
    requires StillToDo(all, mem, addr, data, room, bus, r) && data != []
    ensures
      var n := if |data| > room then room else |data|;
      var mem' := Stored(mem, addr, data[..n], bus[0]);
      StillToDo(all, mem', addr + n, data[n..], PAGE, bus[1..], if bus[0].sent == 0 then Error else r)
  {
    hide Stored;
  }

  lemma AllDone(all: (seq<Byte>, Result), mem: seq<Byte>, addr: nat, room: nat, bus: seq<Transfer>, r: Result)
    requires StillToDo(all, mem, addr, [], room, bus, r)
    ensures all == (mem, r)
  {
  }

  /** What is left of a read of which `all` is the outcome, when `i` bytes of the buffer are done. */
  ghost predicate StillToRead(all: (seq<Byte>, Result), mem: seq<Byte>, addr: nat, buffer: seq<Byte>, i: nat, room: nat, bus: seq<Transfer>, r: Result) {
    && |mem| == SIZE && room > 0 && i <= |buffer| && |bus| >= |buffer| - i
    && var rest := ReadChunks(mem, addr, buffer[i..], room, bus);
       all == (buffer[..i] + rest.0, if r == Error then Error else rest.1)
  }

  lemma FlatStep(mem: seq<Byte>, addr: nat, data: seq<Byte>, k: nat)
    requires |mem| == SIZE && k < |data|
    ensures Flat(mem, addr, data[k..]) == Flat(mem[Cell(addr) := data[k]], addr + 1, data[k+1..])
  {
    assert data[k..][1..] == data[k+1..];
  }

  lemma FlatEnd(mem: seq<Byte>, addr: nat)
    requires |mem| == SIZE
    ensures Flat(mem, addr, []) == mem
  {
  }

  lemma FirstChunk(mem: seq<Byte>, addr: nat, former: seq<Byte>, room: nat, bus: seq<Transfer>)
    requires |mem| == SIZE && room > 0 && |bus| >= |former| && former != []
    ensures
      var n := if |former| > room then room else |former|;
      var chunk := Fetched(mem, addr, former[..n], bus[0]);
      var (rest, r) := ReadChunks(mem, addr + n, former[n..], PAGE, bus[1..]);
      ReadChunks(mem, addr, former, room, bus) == (chunk + rest, if bus[0].sent == 0 then Error else r)
  {
    hide Fetched;
  }

  /** `buffer` with `chunk` written at `i`. */
  function Placed(buffer: seq<Byte>, i: nat, chunk: seq<Byte>): (r: seq<Byte>)
    requires i + |chunk| <= |buffer|
    ensures |r| == |buffer|
  {
    buffer[..i] + chunk + buffer[i+|chunk|..]
  }

  lemma ChunkRead(all: (seq<Byte>, Result), mem: seq<Byte>, addr: nat, buffer: seq<Byte>, i: nat, room: nat, bus: seq<Transfer>, r: Result)
    requires StillToRead(all, mem, addr, buffer, i, room, bus, r) && i < |buffer|
    ensures
      var n := if |buffer| - i > room then room else |buffer| - i;
      var chunk := Fetched(mem, addr, buffer[i..i+n], bus[0]);
      StillToRead(all, mem, addr + n, Placed(buffer, i, chunk), i + n, PAGE, bus[1..], if bus[0].sent == 0 then Error else r)
  {
    hide Fetched, ReadChunks;
    FirstChunk(mem, addr, buffer[i..], room, bus);
    var n := if |buffer| - i > room then room else |buffer| - i;
    var chunk := Fetched(mem, addr, buffer[i..i+n], bus[0]);
    var former := buffer[i..];
    assert former[..n] == buffer[i..i+n] && former[n..] == buffer[i+n..];
    var buffer' := buffer[..i] + chunk + buffer[i+n..];
    assert buffer'[i+n..] == buffer[i+n..] && buffer'[..i+n] == buffer[..i] + chunk;
    var rest := ReadChunks(mem, addr + n, former[n..], PAGE, bus[1..]);
    assert buffer[..i] + (chunk + rest.0) == buffer[..i] + chunk + rest.0;
  }

  lemma ReadStart(mem: seq<Byte>, addr: nat, former: seq<Byte>, room: nat, bus: seq<Transfer>)
    requires |mem| == SIZE && room > 0 && |bus| >= |former|
    ensures StillToRead(ReadChunks(mem, addr, former, room, bus), mem, addr, former, 0, room, bus, Ok)
  {
    hide ReadChunks;
    assert former[0..] == former;
    assert former[..0] + ReadChunks(mem, addr, former, room, bus).0 == ReadChunks(mem, addr, former, room, bus).0;
  }

  lemma AllRead(all: (seq<Byte>, Result), mem: seq<Byte>, addr: nat, buffer: seq<Byte>, room: nat, bus: seq<Transfer>, r: Result)
    requires StillToRead(all, mem, addr, buffer, |buffer|, room, bus, r)
    ensures all == (buffer, r)
  {
    assert buffer[|buffer|..] == [] && buffer[..|buffer|] + [] == buffer;
  }

  class At24cxx {
    const mem: array<Byte>     // the cells of the device

    constructor (mem: array<Byte>)
      ensures this.mem == mem
    {
      this.mem := mem;
    }

    /** One write transfer. */
    method WritePage(addr: nat, buffer: seq<Byte>, t: Transfer) returns (r: Result)
      requires mem.Length == SIZE
      modifies mem
      ensures r == (if t.sent == 0 then Error else Ok)
      ensures mem[..] == Stored(old(mem[..]), addr, buffer, t)
    {
      r := if t.sent == 0 then Error else Ok;
      ghost var was := mem[..];
      var data := buffer[..Moved(t, |buffer|)];
      var a, i := addr, 0;
      assert data[0..] == data;
      while i < |data|
        invariant i <= |data| && PageWrite(mem[..], a, data[i..]) == PageWrite(was, addr, data)
      {
        ghost var m := mem[..];
        mem[Cell(a)] := data[i];
        assert mem[..] == m[Cell(a) := data[i]] && data[i..][1..] == data[i+1..];
        a := NextInPage(a);
        i := i + 1;
      }
    }

    /** at24cxx_page_write: `bus` tells how each transfer of the loop ends. */
    method PageWriteAll(writeAddr: nat, buffer: seq<Byte>, bus: seq<Transfer>) returns (r: Result)
      requires mem.Length == SIZE && writeAddr < WORD && |buffer| < 0x1_0000 && |bus| >= |buffer|
      modifies mem
      ensures !InRange(writeAddr, |buffer|) ==> r == Error && mem[..] == old(mem[..])
      ensures InRange(writeAddr, |buffer|) ==> (mem[..], r) == WriteChunks(old(mem[..]), writeAddr, buffer, Room(writeAddr), bus)
    {
      r := Error;
      if InRange(writeAddr, |buffer|) {
        r := Ok;
        var room := Room(writeAddr);
        var addr: nat, i, k := writeAddr, 0, 0;
        ghost var all := WriteChunks(mem[..], writeAddr, buffer, room, bus);
        assert buffer[0..] == buffer && bus[0..] == bus;
        assert StillToDo(all, mem[..], addr, buffer[i..], room, bus[k..], r);
        hide StillToDo, Stored, WriteChunks;
        while i < |buffer|
          invariant i <= |buffer| && k <= i && k <= |bus| && room > 0
          invariant StillToDo(all, mem[..], addr, buffer[i..], room, bus[k..], r)
        {
          var n := if |buffer| - i > room then room else |buffer| - i;
          ghost var tail, more := buffer[i..], bus[k..];
          ChunkDone(all, mem[..], addr, tail, room, more, r);
          assert tail[..n] == buffer[i..i+n] && tail[n..] == buffer[i+n..] && more[0] == bus[k] && more[1..] == bus[k+1..];
          var chunk := WritePage(addr, buffer[i..i+n], bus[k]);
          if chunk == Error {
            r := Error;
          }
          addr, i, k, room := addr + n, i + n, k + 1, PAGE;
        }
        assert buffer[i..] == [];
        AllDone(all, mem[..], addr, room, bus[k..], r);
      }
    }

    /** at24cxx_write: every byte is bus again until it gets through; `failures` counts how often it does not.
        `buffer` is what can be read from the pointer on. */
    method Write(writeAddr: nat, buffer: seq<Byte>, num: nat, failures: seq<nat>) returns (r: Result)
      requires mem.Length == SIZE && writeAddr < WORD && num < 0x1_0000
      requires |failures| == 0x1_0000 && |buffer| >= Written(num, failures)
      modifies mem
      ensures !InRange(writeAddr, num) ==> r == Error && mem[..] == old(mem[..])
      ensures InRange(writeAddr, num) ==> r == Ok && mem[..] == Flat(old(mem[..]), writeAddr, buffer[..Written(num, failures)])
    {
      r := Error;
      if InRange(writeAddr, num) {
        r := Ok;
        ghost var was, n := mem[..], Written(num, failures);
        var i, tries, done := 0, 0, false;
        ghost var k, data := 0, buffer[..n];
        assert data[0..] == data;
        hide Flat, Cell;
        while !done
          invariant k <= n && i == if k == 0x1_0000 then 0 else k
          invariant if done then k == n else k < n || (k == 0 && num == 0 && tries == 0)
          invariant !done ==> tries <= failures[i]
          invariant Flat(mem[..], writeAddr + k, data[k..]) == Flat(was, writeAddr, data)
          decreases if done then 0 else 1, n - k, if tries <= failures[i] then failures[i] - tries else 0
        {
          if tries < failures[i] {
            tries := tries + 1;
          } else {
            FlatStep(mem[..], writeAddr + k, data, k);
            ghost var m := mem[..];
            mem[Cell(writeAddr + i)] := buffer[i];
            assert mem[..] == m[Cell(writeAddr + k) := data[k]];
            i, tries := if i == 0xFFFF then 0 else i + 1, 0;   // a 16-bit counter
            k := k + 1;
          }
          done := i == num;
        }
        assert data[k..] == [];
        FlatEnd(mem[..], writeAddr + k);
      }
    }

    /** at24cxx_page_read: `bus` tells how each transfer of the loop ends. */
    method PageReadAll(readAddr: nat, former: seq<Byte>, bus: seq<Transfer>) returns (r: Result, buffer: seq<Byte>)
      requires mem.Length == SIZE && readAddr < WORD && |former| < 0x1_0000 && |bus| >= |former|
      ensures !InRange(readAddr, |former|) ==> r == Error && buffer == former
      ensures InRange(readAddr, |former|) ==> (buffer, r) == ReadChunks(mem[..], readAddr, former, Room(readAddr), bus)
    {
      r, buffer := Error, former;
      if InRange(readAddr, |former|) {
        r := Ok;
        var room := Room(readAddr);
        var addr: nat, i, k := readAddr, 0, 0;
        ghost var all := ReadChunks(mem[..], readAddr, former, room, bus);
        hide Fetched, ReadChunks, Room, StillToRead;
        ghost var more := bus;
        ReadStart(mem[..], addr, buffer, room, bus);
        while i < |buffer|
          invariant i <= |buffer| == |former| && k <= i && room > 0 && more == bus[k..]
          invariant StillToRead(all, mem[..], addr, buffer, i, room, more, r)
        {
          assert more[0] == bus[k] && more[1..] == bus[k+1..];
          var n;
          buffer, r, n := ReadNext(addr, buffer, i, room, bus[k], r, all, more);
          more := more[1..];
          addr, i, k, room := addr + n, i + n, k + 1, PAGE;
        }
        AllRead(all, mem[..], addr, buffer, room, more, r);
      }
    }

    /** One turn of the loop: the transfer of the next chunk. */
    method ReadNext(addr: nat, former: seq<Byte>, i: nat, room: nat, got: Transfer, before: Result, ghost all: (seq<Byte>, Result), ghost bus: seq<Transfer>)
      returns (buffer: seq<Byte>, r: Result, n: nat)
      requires mem.Length == SIZE && i < |former| && room > 0
      requires StillToRead(all, mem[..], addr, former, i, room, bus, before) && |bus| > 0 && bus[0] == got
      ensures n > 0 && i + n <= |buffer| == |former|
      ensures StillToRead(all, mem[..], addr + n, buffer, i + n, PAGE, bus[1..], r)
    {
      hide Fetched, StillToRead, Placed;
      n := if |former| - i > room then room else |former| - i;
      ChunkRead(all, mem[..], addr, former, i, room, bus, before);
      var chunk, result := ReadPage(addr, former[i..i+n], got);
      buffer := Placed(former, i, chunk);
      r := if result == Error then Error else before;
    }

    /** One read transfer. */
    method ReadPage(addr: nat, former: seq<Byte>, t: Transfer) returns (chunk: seq<Byte>, r: Result)
      requires mem.Length == SIZE
      ensures r == if t.sent == 0 then Error else Ok
      ensures chunk == Fetched(mem[..], addr, former, t)
    {
      chunk, r := former, if t.sent == 0 then Error else Ok;
      var a, i, m := addr, 0, Moved(t, |former|);
      while i < m
        invariant i <= m <= |former| == |chunk| && chunk[m..] == former[m..]
        invariant chunk[..i] + PageRead(mem[..], a, m - i) == PageRead(mem[..], addr, m)
      {
        ghost var was := chunk;
        chunk := chunk[i := mem[Cell(a)]];
        assert chunk[..i+1] == was[..i] + [mem[Cell(a)]];
        a := NextInPage(a);
        i := i + 1;
      }
      assert chunk == chunk[..m] + chunk[m..];
    }

    /** What is written page by page is what a byte-by-byte write leaves, and is read back page by page. */
    method WriteThenRead(addr: nat, data: seq<Byte>, former: seq<Byte>, bus: seq<Transfer>) returns (back: seq<Byte>)
      requires mem.Length == SIZE && addr + |data| <= SIZE && |bus| == |data| == |former|
      requires forall i :: 0 <= i < |bus| ==> bus[i].sent == ALL_SENT
      modifies mem
      ensures mem[..] == Flat(old(mem[..]), addr, data) && back == data
    {
      hide Flat, FlatRead, Room, WriteChunks, ReadChunks, Chunks;
      ChunksFlat(mem[..], addr, data, Room(addr), bus);
      ReadBack(mem[..], addr, data);
      var w := PageWriteAll(addr, data, bus);
      ReadChunksFlat(mem[..], addr, former, Room(addr), bus);
      var r;
      r, back := PageReadAll(addr, former, bus);
    }
  }
}
