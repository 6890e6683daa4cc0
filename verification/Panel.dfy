/**
  The display controller on the other end of the wire: its memory, its two address pointers in page
  addressing mode (section 10.1.3 of the SSD1306 datasheet), and the three ways bytes reach it.
 */
module Panel {

  const PAGES := 8
  const COLUMNS := 128

  datatype Panel = Panel(ram: seq<seq<bv8>>, page: nat, col: nat) {
    ghost predicate Valid() {
      && |ram| == PAGES && (forall p :: 0 <= p < PAGES ==> |ram[p]| == COLUMNS)
      && page < PAGES && col < COLUMNS
    }
  }

  function Byte(n: nat): bv8
    requires n < 256
  {
    n as bv8
  }

  function Value(b: bv8): nat {
    b as nat
  }

  lemma NibbleValues(n: nat)
    requires n < 16
    ensures Value(0x00 + Byte(n)) == n && Value(0x10 + Byte(n)) == 0x10 + n
  {
    match n
    case 0 => case 1 => case 2 => case 3 => case 4 => case 5 => case 6 => case 7 =>
    case 8 => case 9 => case 10 => case 11 => case 12 => case 13 => case 14 => case _ =>
  }

  lemma PageCommandValue(page: nat)
    requires page < PAGES
    ensures Value(0xB0 | Byte(page)) == 0xB0 + page
  {
    match page
    case 0 => case 1 => case 2 => case 3 => case 4 => case 5 => case 6 => case _ =>
  }

  /** Lower and higher nibble of the column, page; other commands do not touch the pointers. */
  function Command(p: Panel, b: bv8): (r: Panel)
    requires p.Valid()
    ensures r.Valid()
  {
    var v := Value(b);
    if v < 0x10 then p.(col := p.col / 16 * 16 + v)
    else if v < 0x20 then p.(col := (v - 0x10) % 8 * 16 + p.col % 16)
    else if 0xB0 <= v <= 0xB7 then p.(page := v - 0xB0)
    else p
  }

  /** A data byte lands at the pointers; the column advances and wraps, the page stays. */
  function Data(p: Panel, b: bv8): (r: Panel)
    requires p.Valid()
    ensures r.Valid()
  {
    Panel(p.ram[p.page := p.ram[p.page][p.col := b]], p.page, if p.col + 1 == COLUMNS then 0 else p.col + 1)
  }

  function Stream(p: Panel, isData: bool, s: seq<bv8>): (r: Panel)
    requires p.Valid()
    ensures r.Valid()
    decreases |s|
  {
    if s == [] then p
    else Stream(if isData then Data(p, s[0]) else Command(p, s[0]), isData, s[1..])
  }

  /** `data` written into row `page` from column `col` on. */
  function RowWritten(ram: seq<seq<bv8>>, page: nat, col: nat, data: seq<bv8>): (r: seq<seq<bv8>>)
    requires page < |ram| && col + |data| <= |ram[page]|
    ensures |r| == |ram| && |r[page]| == |ram[page]|
  {
    ram[page := ram[page][..col] + data + ram[page][col + |data|..]]
  }

  lemma {:induction false} DataStream(p: Panel, s: seq<bv8>)
    requires p.Valid() && p.col + |s| <= COLUMNS
    ensures Stream(p, true, s).ram == RowWritten(p.ram, p.page, p.col, s)
    decreases |s|
  {
    if s == [] {
      assert p.ram[p.page] == p.ram[p.page][..p.col] + [] + p.ram[p.page][p.col..];
    } else {
      var q := Data(p, s[0]);
      if |s| == 1 {
        assert s == [s[0]];
        assert Stream(q, true, s[1..]) == q;
        assert q.ram[p.page] == p.ram[p.page][..p.col] + s + p.ram[p.page][p.col + 1..];
      } else {
        DataStream(q, s[1..]);
        assert q.ram[p.page][..p.col + 1] + s[1..] + q.ram[p.page][p.col + |s|..]
            == p.ram[p.page][..p.col] + s + p.ram[p.page][p.col + |s|..];
      }
    }
  }

  // ----- What each transport puts on the wire

  /** `0x00 + columLow`, with `columLow = seg & 0x0F`. */
  function LowCommand(seg: nat): bv8 {
    0x00 + Byte(seg % 16)
  }

  /** `0x10 + columHigh`, with `columHigh = (seg >> 4) & 0x0F`. */
  function HighCommand(seg: nat): bv8 {
    0x10 + Byte(seg / 16 % 16)
  }

  /** `0xB0 | page` */
  function PageCommand(page: nat): bv8
    requires page < 256
  {
    0xB0 | Byte(page)
  }

  function ImageCommands(page: nat, seg: nat): (c: seq<bv8>)
    requires page < PAGES && seg < COLUMNS
    ensures |c| == 3
  {
    [LowCommand(seg), HighCommand(seg), PageCommand(page)]
  }

  lemma ThreeCommands(p: Panel, a: bv8, b: bv8, c: bv8)
    requires p.Valid()
    ensures Stream(p, false, [a, b, c]) == Command(Command(Command(p, a), b), c)
  {
    hide Command;
    var s := [a, b, c];
    var p1 := Command(p, a);
    var p2 := Command(p1, b);
    assert s[1..] == [b, c] && [b, c][1..] == [c];
    assert Stream(p, false, s) == Stream(p1, false, [b, c]);
    assert Stream(p1, false, [b, c]) == Stream(p2, false, [c]);
    assert Stream(p2, false, [c]) == Command(p2, c);
  }

  lemma LowNibble(p: Panel, n: nat)
    requires p.Valid() && n < 16
    ensures Command(p, 0x00 + Byte(n)) == p.(col := p.col / 16 * 16 + n)
  {
    NibbleValues(n);
    hide Byte, Value;
  }

  lemma HighNibble(p: Panel, n: nat)
    requires p.Valid() && n < 8
    ensures Command(p, 0x10 + Byte(n)) == p.(col := n * 16 + p.col % 16)
  {
    NibbleValues(n);
    hide Byte, Value;
  }

  lemma ColumnNibbles(p: Panel, seg: nat)
    requires p.Valid() && seg < COLUMNS
    ensures Command(Command(p, 0x00 + Byte(seg % 16)), 0x10 + Byte(seg / 16 % 16)) == p.(col := seg)
  {
    hide Byte, Value, Command;
    LowNibble(p, seg % 16);
    HighNibble(p.(col := p.col / 16 * 16 + seg % 16), seg / 16);
  }

  /** Whatever the pointers were, the three commands set both of them. */
  lemma ImageCommandsAddress(p: Panel, page: nat, seg: nat)
    requires p.Valid() && page < PAGES && seg < COLUMNS
    ensures Stream(p, false, ImageCommands(page, seg)) == p.(page := page, col := seg)
  {
    ThreeCommands(p, 0x00 + Byte(seg % 16), 0x10 + Byte(seg / 16 % 16), 0xB0 | Byte(page));
    ColumnNibbles(p, seg);
    PageCommandValue(page);
    hide Byte, Value, Stream;
  }

  /** I2C payload after the address byte: control bytes select command or data, one byte or the rest. */
  function ReceiveI2c(p: Panel, s: seq<bv8>): (r: Panel)
    requires p.Valid()
    ensures r.Valid()
    decreases |s|
  {
    if s == [] then p
    else
      var isData := s[0] & 0x40 != 0;
      if s[0] & 0x80 == 0 then Stream(p, isData, s[1..])
      else if |s| == 1 then p
      else ReceiveI2c(Stream(p, isData, [s[1]]), s[2..])
  }

  /** The command link of the legacy driver. */
  datatype LinkOp = Start | Write(bytes: seq<bv8>) | Stop

  function LinkBytes(ops: seq<LinkOp>): seq<bv8> {
    if ops == [] then []
    else (if ops[0].Write? then ops[0].bytes else []) + LinkBytes(ops[1..])
  }

  /** A framed transfer reaches the panel when its first byte is the panel's write address. */
  function ReceiveLink(p: Panel, address: bv8, ops: seq<LinkOp>): (r: Panel)
    requires p.Valid()
    ensures r.Valid()
  {
    var s := LinkBytes(ops);
    if |ops| >= 2 && ops[0].Start? && ops[|ops| - 1].Stop? && s != [] && s[0] == address << 1
    then ReceiveI2c(p, s[1..])
    else p
  }

  // ----- One image write through each transport

  /** New I2C driver: a command transfer and a data transfer, each led by its control byte. */
  function ByNewI2c(p: Panel, page: nat, seg: nat, data: seq<bv8>): (r: Panel)
    requires p.Valid() && page < PAGES && seg < COLUMNS
    ensures r.Valid()
  {
    ReceiveI2c(ReceiveI2c(p, [0x00] + ImageCommands(page, seg)), [0x40] + data)
  }

  /** Legacy I2C driver: the same two transfers built operation by operation on a command link. */
  function LinkFor(address: bv8, payload: seq<LinkOp>): seq<LinkOp> {
    [Start, Write([address << 1])] + payload + [Stop]
  }

  function ByLegacyI2c(p: Panel, address: bv8, page: nat, seg: nat, data: seq<bv8>): (r: Panel)
    requires p.Valid() && page < PAGES && seg < COLUMNS
    ensures r.Valid()
  {
    var c := ImageCommands(page, seg);
    var q := ReceiveLink(p, address, LinkFor(address, [Write([0x00]), Write([c[0]]), Write([c[1]]), Write([c[2]])]));
    ReceiveLink(q, address, LinkFor(address, [Write([0x40]), Write(data)]))
  }

  /** SPI: the same bytes with the D/C line telling commands from data. */
  function BySpi(p: Panel, page: nat, seg: nat, data: seq<bv8>): (r: Panel)
    requires p.Valid() && page < PAGES && seg < COLUMNS
    ensures r.Valid()
  {
    Stream(Stream(p, false, ImageCommands(page, seg)), true, data)
  }

  lemma LinkBytesStep(op: LinkOp, rest: seq<LinkOp>)
    ensures LinkBytes([op] + rest) == (if op.Write? then op.bytes else []) + LinkBytes(rest)
  {
    assert ([op] + rest)[1..] == rest;
  }

  /** A link delivers the address byte followed by exactly the bytes written to it. */
  lemma {:induction false} LinkBytesConcat(a: seq<LinkOp>, b: seq<LinkOp>)
    ensures LinkBytes(a + b) == LinkBytes(a) + LinkBytes(b)
  {
    if a == [] {
      assert a + b == b;
    } else {
      assert (a + b)[1..] == a[1..] + b;
      LinkBytesConcat(a[1..], b);
    }
  }

  lemma LinkDelivers(p: Panel, address: bv8, payload: seq<LinkOp>)
    requires p.Valid()
    ensures ReceiveLink(p, address, LinkFor(address, payload)) == ReceiveI2c(p, LinkBytes(payload))
  {
    hide ReceiveI2c;
    var head := [Start, Write([address << 1])];
    var ops := LinkFor(address, payload);
    LinkBytesConcat(head + payload, [Stop]);
    LinkBytesConcat(head, payload);
    assert LinkBytes([Stop]) == [] && LinkBytes(head) == [address << 1];
    assert LinkBytes(ops) == [address << 1] + LinkBytes(payload);
    assert LinkBytes(ops)[1..] == LinkBytes(payload);
  }

  lemma ControlBytes(p: Panel, s: seq<bv8>)
    requires p.Valid()
    ensures ReceiveI2c(p, [0x00] + s) == Stream(p, false, s)
    ensures ReceiveI2c(p, [0x40] + s) == Stream(p, true, s)
  {
    assert ([0x00] + s)[1..] == s && ([0x40] + s)[1..] == s;
  }

  lemma LegacyPayloads(c: seq<bv8>, data: seq<bv8>)
    requires |c| == 3
    ensures LinkBytes([Write([0x00]), Write([c[0]]), Write([c[1]]), Write([c[2]])]) == [0x00] + c
    ensures LinkBytes([Write([0x40]), Write(data)]) == [0x40] + data
  {
    LinkBytesStep(Write([0x00]), [Write([c[0]]), Write([c[1]]), Write([c[2]])]);
    LinkBytesStep(Write([c[0]]), [Write([c[1]]), Write([c[2]])]);
    LinkBytesStep(Write([c[1]]), [Write([c[2]])]);
    LinkBytesStep(Write([c[2]]), []);
    LinkBytesStep(Write([0x40]), [Write(data)]);
    LinkBytesStep(Write(data), []);
    assert [Write([0x00])] + [Write([c[0]]), Write([c[1]]), Write([c[2]])]
        == [Write([0x00]), Write([c[0]]), Write([c[1]]), Write([c[2]])];
    assert [Write([c[0]])] + [Write([c[1]]), Write([c[2]])] == [Write([c[0]]), Write([c[1]]), Write([c[2]])];
    assert [Write([c[1]])] + [Write([c[2]])] == [Write([c[1]]), Write([c[2]])];
    assert [Write([c[2]])] + [] == [Write([c[2]])];
    assert [Write([0x40])] + [Write(data)] == [Write([0x40]), Write(data)];
    assert [Write(data)] + [] == [Write(data)];
  }

  lemma {:induction false} StreamConcat(p: Panel, isData: bool, a: seq<bv8>, b: seq<bv8>)
    requires p.Valid()
    ensures Stream(p, isData, a + b) == Stream(Stream(p, isData, a), isData, b)
    decreases |a|
  {
    hide Data, Command;
    if a == [] {
      assert a + b == b;
    } else {
      assert (a + b)[1..] == a[1..] + b;
      StreamConcat(if isData then Data(p, a[0]) else Command(p, a[0]), isData, a[1..], b);
    }
  }

  /** Where the pointers are after data that does not go beyond the row. */
  lemma {:induction false} DataStreamEnds(p: Panel, s: seq<bv8>)
    requires p.Valid() && p.col + |s| <= COLUMNS
    ensures Stream(p, true, s).page == p.page && Stream(p, true, s).col == (p.col + |s|) % COLUMNS
    decreases |s|
  {
    if |s| == 1 {
      assert Stream(Data(p, s[0]), true, s[1..]) == Data(p, s[0]);
    } else if s != [] {
      DataStreamEnds(Data(p, s[0]), s[1..]);
    }
  }

  /** Data that goes on past an image goes on where the image ended. */
  lemma SpillFollows(p: Panel, page: nat, seg: nat, part: seq<bv8>, extra: seq<bv8>)
    requires p.Valid() && page < PAGES && seg < COLUMNS
    ensures BySpi(p, page, seg, part + extra) == Stream(BySpi(p, page, seg, part), true, extra)
  {
    hide Stream, ImageCommands;
    StreamConcat(Stream(p, false, ImageCommands(page, seg)), true, part, extra);
  }

  /** Once column 0 of the page holds `b`, more of the same byte leaves it there. */
  lemma {:induction false} SameByteStays(p: Panel, n: nat, b: bv8)
    requires p.Valid() && p.ram[p.page][0] == b
    ensures Stream(p, true, seq(n, _ => b)).ram[p.page][0] == b
    decreases n
  {
    if n > 0 {
      var s := seq(n, _ => b);
      assert s[1..] == seq(n - 1, _ => b);
      SameByteStays(Data(p, b), n - 1, b);
    }
  }

  /** The three command bytes: lower nibble and upper bits of the column, then the page. */
  lemma ImageCommandBytes(page: nat, seg: nat)
    requires page < PAGES && seg < COLUMNS
    ensures var c := ImageCommands(page, seg);
            c[0] as nat == seg % 16 && c[1] as nat == 0x10 + seg / 16 && c[2] as nat == 0xB0 + page
  {
    NibbleValues(seg % 16);
    NibbleValues(seg / 16);
    PageCommandValue(page);
    hide Byte;
  }

  /** All three transports drive the panel to the same state: the row written, both pointers included. */
  lemma TransportsAgree(p: Panel, address: bv8, page: nat, seg: nat, data: seq<bv8>)
    requires p.Valid() && page < PAGES && seg < COLUMNS
    ensures BySpi(p, page, seg, data) == ByNewI2c(p, page, seg, data) == ByLegacyI2c(p, address, page, seg, data)
    ensures seg + |data| <= COLUMNS ==> BySpi(p, page, seg, data).ram == RowWritten(p.ram, page, seg, data)
  {
    hide Stream, ReceiveI2c, ImageCommands, RowWritten;
    var c := ImageCommands(page, seg);
    ImageCommandsAddress(p, page, seg);
    var q := p.(page := page, col := seg);
    if seg + |data| <= COLUMNS {
      DataStream(q, data);
    }
    ControlBytes(p, c);
    ControlBytes(q, data);
    LegacyPayloads(c, data);
    LinkDelivers(p, address, [Write([0x00]), Write([c[0]]), Write([c[1]]), Write([c[2]])]);
    LinkDelivers(q, address, [Write([0x40]), Write(data)]);
  }
}
