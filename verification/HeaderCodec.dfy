/** The D2TP header and its options: the builder writes them into a byte buffer, the parsers walk over it.
    Bit fields are laid out as on a little-endian host: the data offset is the low nibble of byte 12.
 */
module HeaderCodec {


  const HDR := 20
  const WIN_SCALE: bv8 := 3
  const HOST_ID: bv8 := 7
  const PORT: bv8 := 8
  const DEADLINE: bv8 := 9
  const MAX_WINSCALE: bv8 := 14

  /** An option as it is handed to the builder. */
  datatype Opt = Opt(opcode: bv8, data: seq<bv8>)

  const NOP: bv8 := 1

  /** The length byte of an option; 0 for an opcode the builder refuses. */
  function OptLen(opcode: bv8): bv8 {
    match opcode
    case 2 => 4
    case 3 => 3
    case 4 => 2
    case 7 => 22
    case 8 => 4
    case 9 => 6
    case _ => 0
  }

  /** An option the builder can add: a segment size, a window scale, the permission of selective acknowledgements, a
      host ID, a port or a deadline. */
  predicate Buildable(o: Opt) {
    match o.opcode
    case 2 => |o.data| == 2
    case 3 => |o.data| == 1
    case 4 => |o.data| == 0
    case 7 => |o.data| == 20
    case 8 => |o.data| == 2
    case 9 => |o.data| == 4
    case _ => false
  }

  /** The length byte counts the opcode, itself and the data. */
  lemma LengthByte(o: Opt)
    requires Buildable(o)
    ensures OptLen(o.opcode) as int == |o.data| + 2
  {
  }

  /** An option the parsers understand: also the one-byte filler. */
  predicate Known(o: Opt) {
    Buildable(o) || o == Opt(NOP, [])
  }

  predicate AllKnown(opts: seq<Opt>) {
    forall i :: 0 <= i < |opts| ==> Known(opts[i])
  }

  function Encode(o: Opt): seq<bv8> {
    if o.opcode == NOP then [NOP] else [o.opcode, OptLen(o.opcode)] + o.data
  }

  function EncodeAll(opts: seq<Opt>): seq<bv8> {
    if opts == [] then [] else Encode(opts[0]) + EncodeAll(opts[1..])
  }

  lemma {:induction false} EncodeAppend(opts: seq<Opt>, o: Opt)
    ensures EncodeAll(opts + [o]) == EncodeAll(opts) + Encode(o)
    decreases |opts|
  {
    hide Encode;
    if opts == [] {
      assert (opts + [o])[1..] == [];
    } else {
      EncodeAppend(opts[1..], o);
      assert (opts + [o])[1..] == opts[1..] + [o];
      assert Encode(opts[0]) + (EncodeAll(opts[1..]) + Encode(o)) == Encode(opts[0]) + EncodeAll(opts[1..]) + Encode(o);
    }
  }

  /** The header with these options ends here; the packet goes on at the next multiple of four. */
  function HeaderEnd(opts: seq<Opt>): nat {
    HDR + |EncodeAll(opts)|
  }

  function Words(n: nat): nat {
    (n + 3) / 4
  }

  /** The data offset field. */
  function Doff(p: seq<bv8>): nat
    requires |p| > 12
  {
    (p[12] & 0x0f) as nat
  }

  /** What the builder leaves: the options in order, then zeros up to the next multiple of four, and a data
      offset of which four bits are kept. */
  ghost predicate Written(p: seq<bv8>, opts: seq<Opt>) {
    var n := HeaderEnd(opts);
    && AllKnown(opts) && 4 * Words(n) <= |p|
    && p[HDR..n] == EncodeAll(opts)
    && (forall i :: n <= i < 4 * Words(n) ==> p[i] == 0)
    && Doff(p) == Words(n) % 16
  }

  /** The options fit the header. */
  predicate Fits(opts: seq<Opt>) {
    HeaderEnd(opts) <= 60
  }

  /** The data offset tells where the packet goes on if and only if the options fit. */
  lemma DoffIsExact(p: seq<bv8>, opts: seq<Opt>)
    requires Written(p, opts)
    ensures Doff(p) == Words(HeaderEnd(opts)) <==> Fits(opts)
  {
  }

  // ---------- the builder ----------

  lemma Nibble(x: bv8, k: nat)
    requires k < 16
    ensures ((x & 0xf0) | (k as bv8)) & 0x0f == k as bv8 && (k as bv8) as nat == k
    ensures ((x & 0xf0) | (k as bv8)) & 0xf0 == x & 0xf0
  {
  }

  method SetDoff(p: array<bv8>, size: nat)
    requires p.Length > 12
    modifies p
    ensures p[12] & 0xf0 == old(p[12]) & 0xf0 && Doff(p[..]) == Words(size) % 16
    ensures forall i :: 0 <= i < p.Length && i != 12 ==> p[i] == old(p[i])
  {
    var k := Words(size) % 16;
    Nibble(p[12], k);
    p[12] := (p[12] & 0xf0) | (k as bv8);
  }

  /** memset and memcpy into the header. */
  method Fill(p: array<bv8>, off: nat, part: seq<bv8>)
    requires off + |part| <= p.Length
    modifies p
    ensures forall i :: off <= i < off + |part| ==> p[i] == part[i - off]
    ensures forall i :: 0 <= i < p.Length && !(off <= i < off + |part|) ==> p[i] == old(p[i])
  {
    forall i | 0 <= i < |part| {
      p[off + i] := part[i];
    }
  }

  method WriteOption(p: array<bv8>, offset: nat, o: Opt) returns (size: nat)
    requires Buildable(o) && offset + |Encode(o)| <= p.Length
    modifies p
    ensures size == offset + |Encode(o)|
    ensures forall i :: offset <= i < size ==> p[i] == Encode(o)[i - offset]
    ensures forall i :: 0 <= i < p.Length && !(offset <= i < size) ==> p[i] == old(p[i])
  {
    var opsize := OptLen(o.opcode);
    Fill(p, offset, [o.opcode, opsize]);
    Fill(p, offset + 2, o.data);
    size := offset + opsize as nat;
  }

  /** One more option behind the others, then zeros and the new data offset. */
  lemma WrittenAppend(p: seq<bv8>, q: seq<bv8>, opts: seq<Opt>, o: Opt)
    requires Buildable(o) && Written(p, opts) && |q| == |p|
    requires var n, m := HeaderEnd(opts), HeaderEnd(opts) + |Encode(o)|;
             && 4 * Words(m) <= |q| && q[HDR..n] == p[HDR..n] && q[n..m] == Encode(o)
             && (forall i :: m <= i < 4 * Words(m) ==> q[i] == 0)
             && Doff(q) == Words(m) % 16
    ensures Written(q, opts + [o]) && HeaderEnd(opts + [o]) == HeaderEnd(opts) + |Encode(o)|
  {
    hide Encode;
    EncodeAppend(opts, o);
    var n := HeaderEnd(opts);
    assert q[HDR..n + |Encode(o)|] == q[HDR..n] + q[n..n + |Encode(o)|];
  }

  /** One to four zeros behind the options, and the data offset. */
  method Pad(p: array<bv8>, size: nat)
    requires HDR <= size && size + 4 - size % 4 <= p.Length
    modifies p
    ensures p[12] & 0xf0 == old(p[12]) & 0xf0 && Doff(p[..]) == Words(size) % 16 && 4 * Words(size) <= p.Length
    ensures forall i :: 0 <= i < size && i != 12 ==> p[i] == old(p[i])
    ensures forall i :: size <= i < 4 * Words(size) ==> p[i] == 0
  {
    var zeros: seq<bv8> := [0, 0, 0, 0];
    Fill(p, size, zeros[..4 - size % 4]);
    SetDoff(p, size);
  }

  /** DTPAddOptionToHeader: writes the option behind the others, pads with one to four zeros and updates the
      data offset. */
  method AddOption(p: array<bv8>, offset: nat, o: Opt, ghost opts: seq<Opt>) returns (size: nat)
    requires Buildable(o) && Written(p[..], opts) && offset == HeaderEnd(opts)
    requires var n := offset + |Encode(o)|; n + 4 - n % 4 <= p.Length
    modifies p
    ensures Written(p[..], opts + [o]) && size == HeaderEnd(opts + [o]) == offset + |Encode(o)|
    ensures p[12] & 0xf0 == old(p[12]) & 0xf0
    ensures forall i :: 0 <= i < HDR && i != 12 ==> p[i] == old(p[i])
  {
    hide Written, EncodeAll, Doff, Words, Encode, Buildable;
    ghost var before := p[..];
    size := WriteOption(p, offset, o);
    Pad(p, size);
    ghost var q := p[..];
    assert q[HDR..offset] == before[HDR..offset] && q[offset..size] == Encode(o);
    WrittenAppend(before, q, opts, o);
  }

  // ---------- the fixed part ----------

  const CHG: bv8 := 0x40
  const RSP: bv8 := 0x20
  const AUTH: bv8 := 0x10
  const ACK: bv8 := 0x08
  const RST: bv8 := 0x04
  const SYN: bv8 := 0x02
  const FIN: bv8 := 0x01

  function Be32(v: bv32): (r: seq<bv8>)
    ensures |r| == 4
  {
    [((v >> 24) & 0xff) as bv8, ((v >> 16) & 0xff) as bv8, ((v >> 8) & 0xff) as bv8, (v & 0xff) as bv8]
  }

  /** ntohl of the four bytes at `off`. */
  function Field32(p: seq<bv8>, off: nat): bv32
    requires off + 4 <= |p|
  {
    (p[off] as bv32 << 24) | (p[off + 1] as bv32 << 16) | (p[off + 2] as bv32 << 8) | (p[off + 3] as bv32)
  }

  lemma Be32Reads(v: bv32)
    ensures Field32(Be32(v), 0) == v
  {
  }

  function Bit(flag: bv8, mask: bv8, bit: bv8): bv8 {
    if flag & mask != 0 then bit else 0
  }

  /** The bits of byte 13, of which URG and PSH are left as they were. */
  function FlagByte(was: bv8, flag: bv8): bv8 {
    (was & 0x14) | Bit(flag, RSP, 0x01) | Bit(flag, AUTH, 0x02) | Bit(flag, ACK, 0x08) |
    Bit(flag, RST, 0x20) | Bit(flag, SYN, 0x40) | Bit(flag, FIN, 0x80)
  }

  /** The flags as the receiver reads them from bytes 12 and 13. */
  function Flags(a: bv8, b: bv8): bv8 {
    Bit(a, 0x80, CHG) | Bit(b, 0x01, RSP) | Bit(b, 0x02, AUTH) | Bit(b, 0x08, ACK) |
    Bit(b, 0x20, RST) | Bit(b, 0x40, SYN) | Bit(b, 0x80, FIN)
  }

  lemma FlagsRead(a: bv8, b: bv8, flag: bv8)
    ensures var x, y := (a & 0x70) | Bit(flag, CHG, 0x80) | 5, FlagByte(b, flag);
            Flags(x, y) == flag & 0x7f && x & 0x70 == a & 0x70 && y & 0x14 == b & 0x14 && x & 0x0f == 5
  {
  }

  function Be16(v: bv32): (r: seq<bv8>)
    ensures |r| == 2
  {
    [((v >> 8) & 0xff) as bv8, (v & 0xff) as bv8]
  }

  function Field16(p: seq<bv8>, off: nat): bv32
    requires off + 2 <= |p|
  {
    (p[off] as bv32 << 8) | (p[off + 1] as bv32)
  }

  lemma Be16Reads(v: bv32)
    requires v <= 0xffff
    ensures Field16(Be16(v), 0) == v
  {
  }

  /** The window field carries no more than 0x7FFF. */
  function Clamped(win: bv32): bv32 {
    if win > 0x7fff then 0x7fff else win
  }

  /** The field reads as the window, or as 0x7FFF if that is less. */
  predicate IsWindow(field: bv32, win: bv32) {
    field <= win && field <= 0x7fff && (field == win || field == 0x7fff)
  }

  lemma ClampedFits(win: bv32)
    ensures Clamped(win) <= 0xffff && IsWindow(Clamped(win), win)
  {
  }

  /** What the receiver reads of the fixed part. */
  ghost predicate Carries(p: seq<bv8>, seqNum: bv32, ackNum: bv32, fid: bv32, flag: bv8, win: bv32) {
    && HDR <= |p| && Field32(p, 0) == fid && Field32(p, 4) == seqNum && Field32(p, 8) == ackNum
    && Flags(p[12], p[13]) == flag & 0x7f && IsWindow(Field16(p, 14), win)
  }

  /** The fixed part as written over `was`. */
  function Fixed(was: seq<bv8>, seqNum: bv32, ackNum: bv32, fid: bv32, flag: bv8, win: bv32): seq<bv8>
    requires |was| >= HDR
  {
    Be32(fid) + Be32(seqNum) + Be32(ackNum) +
    [(was[12] & 0x70) | Bit(flag, CHG, 0x80) | 5, FlagByte(was[13], flag)] + Be16(Clamped(win))
  }

  lemma Field32At(p: seq<bv8>, q: seq<bv8>, off: nat)
    requires off + 4 <= |p| && p[off..off + 4] == q && |q| == 4
    ensures Field32(p, off) == Field32(q, 0)
  {
    assert q[0] == p[off] && q[1] == p[off + 1] && q[2] == p[off + 2] && q[3] == p[off + 3];
  }

  lemma FixedParts(was: seq<bv8>, seqNum: bv32, ackNum: bv32, fid: bv32, flag: bv8, win: bv32)
    requires |was| >= HDR
    ensures var f := Fixed(was, seqNum, ackNum, fid, flag, win);
            && |f| == 16 && f[0..4] == Be32(fid) && f[4..8] == Be32(seqNum) && f[8..12] == Be32(ackNum)
            && f[12] == (was[12] & 0x70) | Bit(flag, CHG, 0x80) | 5 && f[13] == FlagByte(was[13], flag)
            && f[14..16] == Be16(Clamped(win))
  {
    hide Be32, Be16, Bit, FlagByte, Clamped;
  }

  lemma FixedWords(p: seq<bv8>, was: seq<bv8>, seqNum: bv32, ackNum: bv32, fid: bv32, flag: bv8, win: bv32)
    requires |was| == |p| >= HDR && p[..16] == Fixed(was, seqNum, ackNum, fid, flag, win)
    ensures Field32(p, 0) == fid && Field32(p, 4) == seqNum && Field32(p, 8) == ackNum && Field16(p, 14) == Clamped(win)
  {
    hide Field32, Be32, Field16, Be16, Bit, FlagByte, Fixed, Clamped;
    FixedParts(was, seqNum, ackNum, fid, flag, win);
    var f := p[..16];
    assert p[0..4] == f[0..4] && p[4..8] == f[4..8] && p[8..12] == f[8..12] && p[14..16] == f[14..16];
    Field32At(p, Be32(fid), 0);
    Field32At(p, Be32(seqNum), 4);
    Field32At(p, Be32(ackNum), 8);
    Be32Reads(fid);
    Be32Reads(seqNum);
    Be32Reads(ackNum);
    ClampedFits(win);
    Be16At(p, Be16(Clamped(win)), 14);
    Be16Reads(Clamped(win));
  }

  lemma FixedCarries(p: seq<bv8>, was: seq<bv8>, seqNum: bv32, ackNum: bv32, fid: bv32, flag: bv8, win: bv32)
    requires |was| == |p| >= HDR && p[..16] == Fixed(was, seqNum, ackNum, fid, flag, win)
    ensures Carries(p, seqNum, ackNum, fid, flag, win)
  {
    hide Field32, Be32, Field16, Be16, Bit, FlagByte, Fixed, Clamped, Flags, IsWindow;
    ClampedFits(win);
    FixedWords(p, was, seqNum, ackNum, fid, flag, win);
    FixedParts(was, seqNum, ackNum, fid, flag, win);
    assert p[12] == p[..16][12] && p[13] == p[..16][13];
    FlagsRead(was[12], was[13], flag);
  }

  lemma FixedIsWritten(p: seq<bv8>, was: seq<bv8>, seqNum: bv32, ackNum: bv32, fid: bv32, flag: bv8, win: bv32)
    requires |was| == |p| >= HDR && p[..16] == Fixed(was, seqNum, ackNum, fid, flag, win)
    ensures Written(p, []) && p[12] & 0x70 == was[12] & 0x70 && p[13] & 0x14 == was[13] & 0x14
  {
    hide Be32, Be16, Bit, FlagByte, Fixed;
    FixedParts(was, seqNum, ackNum, fid, flag, win);
    var f := p[..16];
    assert p[12] == f[12] && p[13] == f[13];
    FlagsRead(was[12], was[13], flag);
  }

  lemma Be16At(p: seq<bv8>, q: seq<bv8>, off: nat)
    requires off + 2 <= |p| && p[off..off + 2] == q
    ensures |q| == 2 && Field16(p, off) == Field16(q, 0)
  {
    assert q[0] == p[off] && q[1] == p[off + 1];
  }

  /** DTPGenerateHeader: the receiver reads back what was put in, the window clamped; no options yet. */
  method GenerateHeader(p: array<bv8>, seqNum: bv32, ackNum: bv32, fid: bv32, flag: bv8, win: bv32) returns (size: nat)
    requires p.Length >= HDR
    modifies p
    ensures size == HDR == HeaderEnd([]) && Written(p[..], [])
    ensures Carries(p[..], seqNum, ackNum, fid, flag, win)
    ensures p[12] & 0x70 == old(p[12]) & 0x70 && p[13] & 0x14 == old(p[13]) & 0x14
    ensures forall i :: 16 <= i < p.Length ==> p[i] == old(p[i])
  {
    hide Carries, Written, Fixed, EncodeAll;
    EndOfNone();
    ghost var was := p[..];
    FixedParts(was, seqNum, ackNum, fid, flag, win);
    var fixed := Fixed(p[..], seqNum, ackNum, fid, flag, win);
    Fill(p, 0, fixed);
    assert p[..][..16] == fixed;
    FixedCarries(p[..], was, seqNum, ackNum, fid, flag, win);
    FixedIsWritten(p[..], was, seqNum, ackNum, fid, flag, win);
    size := HDR;
  }

  // ---------- the parsers ----------

  /** The parsers take an option of this opcode; a window scale above 14 is ignored. */
  predicate Takes(o: Opt, opcode: bv8) {
    o.opcode == opcode && (opcode == WIN_SCALE && |o.data| > 0 ==> o.data[0] <= 14)
  }

  /** The data of the last option of this opcode that the parsers take. */
  function Last(opts: seq<Opt>, opcode: bv8, none: seq<bv8>): seq<bv8> {
    if opts == [] then none
    else
      var o := opts[|opts| - 1];
      if Takes(o, opcode) then o.data else Last(opts[..|opts| - 1], opcode, none)
  }

  /** The rest of the option list, from `ptr` on, is that of `opts`. */
  ghost predicate Ahead(p: seq<bv8>, opts: seq<Opt>, ptr: nat, len: int) {
    var n := |EncodeAll(opts)|;
    && AllKnown(opts) && ptr + len <= |p| && n <= len <= n + 3
    && p[ptr..ptr + n] == EncodeAll(opts)
    && forall i :: ptr + n <= i < ptr + len ==> p[i] == 0
  }

  lemma AheadAtStart(p: seq<bv8>, opts: seq<Opt>)
    requires Written(p, opts) && Fits(opts)
    ensures HDR <= |p| && Ahead(p, opts, HDR, 4 * Doff(p) - HDR)
  {
  }

  lemma SubSlice(p: seq<bv8>, at: nat, n: nat, i: nat, j: nat)
    requires i <= j <= n && at + n <= |p|
    ensures p[at + i..at + j] == p[at..at + n][i..j]
  {
    var a, b := p[at + i..at + j], p[at..at + n][i..j];
    assert forall k :: 0 <= k < j - i ==> a[k] == p[at + i + k] == b[k];
  }

  /** The encoded list splits into its first option and the rest. */
  lemma Split(p: seq<bv8>, opts: seq<Opt>, ptr: nat)
    requires opts != [] && ptr + |EncodeAll(opts)| <= |p| && p[ptr..ptr + |EncodeAll(opts)|] == EncodeAll(opts)
    ensures var n := |Encode(opts[0])|;
            p[ptr..ptr + n] == Encode(opts[0]) && p[ptr + n..ptr + |EncodeAll(opts)|] == EncodeAll(opts[1..])
  {
    hide Encode;
    var e, rest := Encode(opts[0]), EncodeAll(opts[1..]);
    var n := |e| + |rest|;
    SubSlice(p, ptr, n, 0, |e|);
    SubSlice(p, ptr, n, |e|, n);
    assert (e + rest)[0..|e|] == e && (e + rest)[|e|..n] == rest;
  }

  lemma FirstOption(p: seq<bv8>, o: Opt, ptr: nat)
    requires Known(o) && ptr + |Encode(o)| <= |p| && p[ptr..ptr + |Encode(o)|] == Encode(o)
    ensures |Encode(o)| > 0 && p[ptr] == o.opcode && o.opcode > 0
    ensures if o.opcode == NOP then |Encode(o)| == 1
            else p[ptr + 1] == OptLen(o.opcode) && |Encode(o)| == OptLen(o.opcode) as nat >= 2 &&
                 p[ptr + 2..ptr + |Encode(o)|] == o.data
  {
    var e := Encode(o);
    assert p[ptr..ptr + |e|][0] == p[ptr];
    if o.opcode != NOP {
      assert p[ptr..ptr + |e|][1] == p[ptr + 1];
      SubSlice(p, ptr, |e|, 2, |e|);
      assert e[2..|e|] == o.data;
    }
  }

  /** What the parser sees at `ptr` of the option `o` and of the rest. */
  ghost predicate Shows(p: seq<bv8>, opts: seq<Opt>, ptr: nat, len: int)
    requires opts != []
  {
    var o, size := opts[0], |Encode(opts[0])|;
    && 1 <= size <= len && ptr + len <= |p| && Known(o) && p[ptr] == o.opcode && o.opcode > 0
    && Ahead(p, opts[1..], ptr + size, len - size)
    && if o.opcode == NOP then size == 1
       else p[ptr + 1] == OptLen(o.opcode) && size == OptLen(o.opcode) as nat >= 2 && p[ptr + 2..ptr + size] == o.data
  }

  /** At the end of the options the list is exhausted or shows a zero; otherwise it shows the next option. */
  lemma NextOption(p: seq<bv8>, opts: seq<Opt>, ptr: nat, len: int)
    requires Ahead(p, opts, ptr, len)
    ensures if opts == [] then len == 0 || (0 < len <= |p| - ptr && p[ptr] == 0) else Shows(p, opts, ptr, len)
  {
    hide Encode, OptLen, Known;
    if opts != [] {
      Split(p, opts, ptr);
      FirstOption(p, opts[0], ptr);
    }
  }

  /** The list of options after one more was parsed. */
  lemma {:induction false} LastAppend(opts: seq<Opt>, k: nat, opcode: bv8, none: seq<bv8>)
    requires k < |opts|
    ensures Last(opts[..k + 1], opcode, none) ==
      if Takes(opts[k], opcode) then opts[k].data else Last(opts[..k], opcode, none)
  {
    assert opts[..k + 1][..k] == opts[..k];
  }

  lemma LastEnds(opts: seq<Opt>, opcode: bv8, none: seq<bv8>)
    ensures Last(opts[..0], opcode, none) == none && Last(opts[..|opts|], opcode, none) == Last(opts, opcode, none)
  {
    assert opts[..|opts|] == opts;
  }

  /** DTPGetOption: the host ID and the deadline, unchanged where the header has none. */
  method GetOption(p: array<bv8>, hostId0: seq<bv8>, deadline0: seq<bv8>, ghost opts: seq<Opt>)
    returns (hostId: seq<bv8>, deadline: seq<bv8>)
    requires Written(p[..], opts) && Fits(opts)
    ensures hostId == Last(opts, HOST_ID, hostId0) && deadline == Last(opts, DEADLINE, deadline0)
  {
    hide Written, Ahead, Last, Encode;
    AheadAtStart(p[..], opts);
    var ptr: nat, len := HDR, 4 * Doff(p[..]) - HDR;
    hostId, deadline := hostId0, deadline0;
    ghost var k := 0;
    LastEnds(opts, HOST_ID, hostId0);
    LastEnds(opts, DEADLINE, deadline0);
    NextOption(p[..], opts, ptr, len);
    while len > 0
      invariant 0 <= k <= |opts| && Ahead(p[..], opts[k..], ptr, len)
      invariant hostId == Last(opts[..k], HOST_ID, hostId0) && deadline == Last(opts[..k], DEADLINE, deadline0)
      decreases len
    {
      NextOption(p[..], opts[k..], ptr, len);
      var opcode := p[ptr];
      if opcode == 0 {
        break;
      }
      LastAppend(opts, k, HOST_ID, hostId0);
      LastAppend(opts, k, DEADLINE, deadline0);
      assert opts[k..][1..] == opts[k + 1..];
      k := k + 1;
      if opcode == NOP {
        ptr, len := ptr + 1, len - 1;
        continue;
      }
      var opsize := p[ptr + 1];
      if opcode == HOST_ID && opsize == 22 {
        hostId := p[ptr + 2..ptr + 22];
      } else if opcode == DEADLINE && opsize == 6 {
        deadline := p[ptr + 2..ptr + 6];
      }
      ptr, len := ptr + opsize as nat, len - opsize as nat;
    }
    NextOption(p[..], opts[k..], ptr, len);
  }

  function Swap(port: seq<bv8>): seq<bv8>
    requires |port| == 2
  {
    [port[1], port[0]]
  }

  /** DTPParseOption: the window scale, and the port in network byte order. */
  method ParseOption(p: array<bv8>, scale0: bv8, port0: seq<bv8>, ghost opts: seq<Opt>)
    returns (scale: bv8, port: seq<bv8>)
    requires Written(p[..], opts) && Fits(opts) && |port0| == 2
    ensures |port| == 2
    ensures [scale] == Last(opts, WIN_SCALE, [scale0]) && [port[1], port[0]] == Last(opts, PORT, [port0[1], port0[0]])
  {
    hide Written, Ahead, Last, Encode, Doff, Known;
    AheadAtStart(p[..], opts);
    var ptr: nat, len := HDR, 4 * Doff(p[..]) - HDR;
    scale, port := scale0, port0;
    ghost var k := 0;
    LastEnds(opts, WIN_SCALE, [scale0]);
    LastEnds(opts, PORT, Swap(port0));
    NextOption(p[..], opts, ptr, len);
    while len > 0
      invariant 0 <= k <= |opts| && Ahead(p[..], opts[k..], ptr, len) && |port| == 2
      invariant [scale] == Last(opts[..k], WIN_SCALE, [scale0]) && Swap(port) == Last(opts[..k], PORT, Swap(port0))
      decreases len
    {
      NextOption(p[..], opts[k..], ptr, len);
      var opcode := p[ptr];
      if opcode == 0 {
        break;
      }
      LastAppend(opts, k, WIN_SCALE, [scale0]);
      LastAppend(opts, k, PORT, Swap(port0));
      assert opts[k..][1..] == opts[k + 1..];
      k := k + 1;
      if opcode == NOP {
        ptr, len := ptr + 1, len - 1;
        continue;
      }
      var opsize := p[ptr + 1];
      if opcode == WIN_SCALE && opsize == 3 {
        var advertised := p[ptr + 2];
        if advertised <= MAX_WINSCALE {
          scale := advertised;
        }
      } else if opcode == PORT && opsize == 4 {
        port := Swap(p[ptr + 2..ptr + 4]);
      }
      ptr, len := ptr + opsize as nat, len - opsize as nat;
    }
    NextOption(p[..], opts[k..], ptr, len);
  }

  // ---------- the senders ----------

  /** The options of a SYN; a missing deadline or a window scale of 0 is not sent. */
  function SynOptions(hostId: seq<bv8>, deadline: seq<bv8>, scale: bv8): seq<Opt> {
    [Opt(HOST_ID, hostId)]
    + (if deadline == [] then [] else [Opt(DEADLINE, deadline)])
    + (if scale == 0 then [] else [Opt(WIN_SCALE, [scale])])
  }

  function SynAckOptions(hostId: seq<bv8>, deadline: seq<bv8>, scale: bv8, port: seq<bv8>): seq<Opt> {
    SynOptions(hostId, deadline, scale) + [Opt(PORT, port)]
  }

  predicate WellSized(hostId: seq<bv8>, deadline: seq<bv8>) {
    |hostId| == 20 && (deadline == [] || |deadline| == 4)
  }

  lemma EndAppend(opts: seq<Opt>, o: Opt)
    requires Buildable(o)
    ensures HeaderEnd(opts + [o]) == HeaderEnd(opts) + OptLen(o.opcode) as nat
    ensures AllKnown(opts) ==> AllKnown(opts + [o])
  {
    EncodeAppend(opts, o);
  }

  /** Every set of options the senders build fits, so the data offset stays within its four bits. */
  lemma SendersFit(hostId: seq<bv8>, deadline: seq<bv8>, scale: bv8, port: seq<bv8>)
    requires WellSized(hostId, deadline) && |port| == 2
    ensures HeaderEnd([Opt(HOST_ID, hostId)]) == 42
    ensures AllKnown(SynOptions(hostId, deadline, scale)) && HeaderEnd(SynOptions(hostId, deadline, scale)) <= 51
    ensures var all := SynAckOptions(hostId, deadline, scale, port); AllKnown(all) && HeaderEnd(all) <= 55
  {
    hide EncodeAll;
    var h, d, w, o := Opt(HOST_ID, hostId), Opt(DEADLINE, deadline), Opt(WIN_SCALE, [scale]), Opt(PORT, port);
    EndOfNone();
    EndAppend([], h);
    assert [] + [h] == [h];
    var opts := [h];
    if deadline != [] {
      EndAppend(opts, d);
      opts := opts + [d];
    }
    if scale != 0 {
      EndAppend(opts, w);
      opts := opts + [w];
    }
    assert opts == SynOptions(hostId, deadline, scale);
    EndAppend(opts, o);
  }

  lemma EndOfNone()
    ensures HeaderEnd([]) == HDR
  {
  }

  /** What the peer recovers from them. */
  lemma PeerRecovers(hostId: seq<bv8>, deadline: seq<bv8>, scale: bv8, port: seq<bv8>, none: seq<bv8>)
    ensures var all := SynAckOptions(hostId, deadline, scale, port);
            && Last(all, HOST_ID, none) == hostId
            && Last(all, DEADLINE, none) == (if deadline == [] then none else deadline)
            && Last(all, WIN_SCALE, none) == (if 0 < scale <= 14 then [scale] else none)
            && Last(all, PORT, none) == port
  {
    var all := SynAckOptions(hostId, deadline, scale, port);
    assert all[..|all| - 1] == SynOptions(hostId, deadline, scale);
    RecoversSyn(hostId, deadline, scale, HOST_ID, none);
    RecoversSyn(hostId, deadline, scale, DEADLINE, none);
    RecoversSyn(hostId, deadline, scale, WIN_SCALE, none);
  }

  lemma RecoversSyn(hostId: seq<bv8>, deadline: seq<bv8>, scale: bv8, opcode: bv8, none: seq<bv8>)
    ensures var all := SynOptions(hostId, deadline, scale);
            && (opcode == HOST_ID ==> Last(all, opcode, none) == hostId)
            && (opcode == DEADLINE ==> Last(all, opcode, none) == if deadline == [] then none else deadline)
            && (opcode == WIN_SCALE ==>
                 Last(all, opcode, none) == if 0 < scale <= 14 then [scale] else none)
  {
    var h, d, w := Opt(HOST_ID, hostId), Opt(DEADLINE, deadline), Opt(WIN_SCALE, [scale]);
    assert [h][..0] == [] && [h, d][..1] == [h] && [h, w][..1] == [h] && [h, d, w][..2] == [h, d];
    assert SynOptions(hostId, deadline, scale) ==
      if deadline == [] then if scale == 0 then [h] else [h, w] else if scale == 0 then [h, d] else [h, d, w];
    LastOf(h, [h], opcode, none);
  }

  lemma LastOf(h: Opt, opts: seq<Opt>, opcode: bv8, none: seq<bv8>)
    requires opts == [h]
    ensures Last(opts, opcode, none) == if Takes(h, opcode) then h.data else none
  {
    assert opts[..0] == [];
  }

  /** The options of a SYN, behind a header without options. */
  method AddSynOptions(p: array<bv8>, hostId: seq<bv8>, deadline: seq<bv8>, scale: bv8) returns (size: nat)
    requires p.Length == 2048 && WellSized(hostId, deadline) && Written(p[..], [])
    modifies p
    ensures Written(p[..], SynOptions(hostId, deadline, scale))
    ensures size == HeaderEnd(SynOptions(hostId, deadline, scale)) <= 51
    ensures p[12] & 0xf0 == old(p[12]) & 0xf0
    ensures forall i :: 0 <= i < HDR && i != 12 ==> p[i] == old(p[i])
  {
    hide Written, EncodeAll;
    EndOfNone();
    ghost var opts := [Opt(HOST_ID, hostId)];
    size := AddOption(p, HDR, Opt(HOST_ID, hostId), []);
    assert [] + opts == opts;
    if deadline != [] {
      size := AddOption(p, size, Opt(DEADLINE, deadline), opts);
      opts := opts + [Opt(DEADLINE, deadline)];
    }
    if scale > 0 {
      size := AddOption(p, size, Opt(WIN_SCALE, [scale]), opts);
      opts := opts + [Opt(WIN_SCALE, [scale])];
    }
    assert opts == SynOptions(hostId, deadline, scale);
  }

  lemma CarriesKept(p: seq<bv8>, q: seq<bv8>, seqNum: bv32, ackNum: bv32, fid: bv32, flag: bv8, win: bv32)
    requires Carries(p, seqNum, ackNum, fid, flag, win) && |q| == |p|
    requires q[12] & 0xf0 == p[12] & 0xf0 && forall i :: 0 <= i < HDR && i != 12 ==> q[i] == p[i]
    ensures Carries(q, seqNum, ackNum, fid, flag, win)
  {
    assert q[12] & 0x80 == (q[12] & 0xf0) & 0x80;
    assert p[12] & 0x80 == (p[12] & 0xf0) & 0x80;
  }

  /** The header of a SYN+ACK: the peer reads the fixed part and the options as they were put in. */
  method BuildSynAck(p: array<bv8>, seqNum: bv32, ackNum: bv32, fid: bv32, flag: bv8, win: bv32,
                     hostId: seq<bv8>, deadline: seq<bv8>, scale: bv8, port: seq<bv8>) returns (size: nat)
    requires p.Length == 2048 && WellSized(hostId, deadline) && |port| == 2
    modifies p
    ensures Carries(p[..], seqNum, ackNum, fid, flag, win)
    ensures var all := SynAckOptions(hostId, deadline, scale, port); Written(p[..], all) && Fits(all)
    ensures size == 4 * Doff(p[..])
  {
    hide Written, EncodeAll, Carries, Doff;
    size := GenerateHeader(p, seqNum, ackNum, fid, flag, win);
    ghost var q := p[..];
    size := AddSynOptions(p, hostId, deadline, scale);
    size := AddOption(p, size, Opt(PORT, port), SynOptions(hostId, deadline, scale));
    CarriesKept(q, p[..], seqNum, ackNum, fid, flag, win);
    DoffIsExact(p[..], SynAckOptions(hostId, deadline, scale, port));
    size := 4 * Words(size);
  }
}
