/** lib/devicetree/dtb.c: the walk over the structure block of a flattened devicetree (section 5.4
    of the Devicetree Specification), and the callback of initramfs.c that looks for the archive. */
module DeviceTree {
  import opened Bits
  import opened Machine
  import opened StrUtils

  const BEGIN_NODE: nat := 1
  const END_NODE: nat := 2
  const PROP: nat := 3
  const NOP: nat := 4
  const END: nat := 9

  // ----- big-endian words -----

  /** The four bytes of a word, most significant first. */
  function Big(v: nat): (s: seq<Byte>)
    requires v < WORD
    ensures |s| == 4
  {
    [v / 256 / 256 / 256, v / 256 / 256 % 256, v / 256 % 256, v % 256]
  }

  /** The word that the processor, which is little-endian, loads from four bytes. */
  function Loaded(s: seq<Byte>): nat {
    if s == [] then 0 else s[0] + 256 * Loaded(s[1..])
  }

  /** The word loaded from address a. */
  function LoadWord(m: seq<Byte>, a: nat): nat
    requires a + 4 <= |m|
  {
    var b0: nat, b1: nat, b2: nat, b3: nat := m[a], m[a + 1], m[a + 2], m[a + 3];
    b0 + 256 * b1 + 0x1_0000 * b2 + 0x100_0000 * b3
  }

  lemma LoadedFour(m: seq<Byte>, a: nat)
    requires a + 4 <= |m|
    ensures LoadWord(m, a) == Loaded(m[a..a + 4])
  {
    var s := m[a..a + 4];
    assert s[1..][1..] == s[2..] && s[2..][1..] == s[3..] && s[3..][1..] == [];
    assert Loaded(s[2..]) == s[2] + 256 * Loaded(s[3..]) && Loaded(s[3..]) == s[3];
  }

  lemma FourDigits(s: seq<nat>, b: nat)
    requires |s| == 4
    ensures Value(s, b) == ((s[0] * b + s[1]) * b + s[2]) * b + s[3]
  {
    hide Value;
    OneDigit(s[0], b);
    ValueSnoc(s[..1], s[1], b);
    ValueSnoc(s[..2], s[2], b);
    ValueSnoc(s[..3], s[3], b);
    assert s[..1] == [s[0]] && s[..2] == s[..1] + [s[1]] && s[..3] == s[..2] + [s[2]] && s == s[..3] + [s[3]];
  }

  lemma BigValue(v: nat)
    requires v < WORD
    ensures Value(Big(v), 256) == v
  {
    hide Value;
    var q := v / 256;
    var w := q / 256;
    FourDigits(Big(v), 256);
    assert v == 256 * q + v % 256 && q == 256 * w + q % 256 && w == 256 * (w / 256) + w % 256;
  }

  lemma ShortValue(s: seq<Byte>)
    requires |s| <= 4
    ensures Value(s, 256) < WORD && (|s| <= 3 ==> Value(s, 256) < 0x100_0000)
  {
    ValueBelow(s, 256);
    assert Power(256, 1) == 256 && Power(256, 2) == 65536 && Power(256, 3) == 0x100_0000;
  }

  /** The next byte of a word joins those that were read. */
  lemma OneByte(s: seq<Byte>, i: nat)
    requires |s| == 4 && i < 4
    ensures Loaded(s[i..]) == s[i] + 256 * Loaded(s[i + 1..])
    ensures Value(s[..i + 1], 256) == Value(s[..i], 256) * 256 + s[i] < WORD
  {
    hide Value;
    assert s[i..][1..] == s[i + 1..] && s[..i + 1] == s[..i] + [s[i]];
    ShortValue(s[..i + 1]);
    ValueSnoc(s[..i], s[i], 256);
  }

  /** to_le_u32 */
  method ToLeU32(bigUint: nat, ghost s: seq<Byte>) returns (little: nat)
    requires |s| == 4 && bigUint == Loaded(s)
    ensures little == Value(s, 256) < WORD
  {
    hide Value, Loaded;
    var rest := bigUint;
    little := 0;
    assert s[..0] == [] && s[0..] == s;
    NoDigits(s, 256);
    assert Digits(s[..0]) == [];
    for i := 0 to 4
      invariant rest == Loaded(s[i..]) && little == Value(s[..i], 256)
    {
      OneByte(s, i);
      little := little * 256 % WORD;
      little := (little + rest % 256) % WORD;
      rest := rest / 256;
    }
    assert s[..4] == s;
    ShortValue(s);
  }

  /** Reading a word of the tree. */
  method ReadWord(m: seq<Byte>, a: nat, ghost v: nat) returns (word: nat)
    requires v < WORD && BytesAt(m, a, Big(v))
    ensures word == v
  {
    BigValue(v);
    LoadedFour(m, a);
    word := ToLeU32(LoadWord(m, a), Big(v));
  }

  /** add_padding: the first address at or after addr that is a multiple of padding. */
  method AddPadding(addr: nat, padding: nat) returns (r: nat)
    requires padding > 0
    ensures r % padding == 0 && addr <= r < addr + padding
    ensures forall x :: addr <= x < r ==> x % padding != 0
  {
    var offset := addr % padding;
    r := addr;
    ghost var q := addr / padding;
    assert addr == padding * q + offset;
    if offset != 0 {
      r := addr + (padding - offset);
      Multiple(q + 1, padding);
      forall x | addr <= x < r
        ensures x % padding != 0
      {
        ModIs(x, padding, q, x - padding * q);
      }
    }
  }

  lemma Multiple(q: nat, b: nat)
    requires b > 0
    ensures (b * q) % b == 0
  {
    ModIs(b * q, b, q, 0);
  }

  lemma NextMultiple(a: nat, r: nat)
    requires r % 4 == 0 && a <= r < a + 4
    ensures r == a + Pad(a)
  {
  }

  // ----- the tree -----

  /** What a node holds, in order: properties, child nodes, and NOPs anywhere between them. */
  datatype Items =
    | Done
    | Nop(rest: Items)
    | Prop(nameoff: nat, data: seq<Byte>, rest: Items)
    | Node(name: seq<Byte>, body: Items, rest: Items)

  /** The tokens of the structure block; Unknown is one that the specification does not define. */
  datatype Token =
    | BeginNode(name: seq<Byte>)
    | EndNode
    | Property(nameoff: nat, data: seq<Byte>)
    | NopToken
    | Unknown(code: nat)

  function Flatten(items: Items): seq<Token> {
    match items
    case Done => []
    case Nop(rest) => [NopToken] + Flatten(rest)
    case Prop(nameoff, data, rest) => [Property(nameoff, data)] + Flatten(rest)
    case Node(name, body, rest) => [BeginNode(name)] + Flatten(body) + [EndNode] + Flatten(rest)
  }

  /** The properties of a tree in document order. */
  function Properties(items: Items): seq<(nat, seq<Byte>)> {
    match items
    case Done => []
    case Nop(rest) => Properties(rest)
    case Prop(nameoff, data, rest) => [(nameoff, data)] + Properties(rest)
    case Node(name, body, rest) => Properties(body) + Properties(rest)
  }

  predicate Proper(t: Token) {
    match t
    case BeginNode(name) => NUL !in name
    case Property(nameoff, data) => nameoff < WORD && |data| < WORD
    case Unknown(code) => code < WORD && code !in {BEGIN_NODE, END_NODE, PROP, NOP, END}
    case _ => true
  }

  function Code(t: Token): (code: nat)
    requires Proper(t)
    ensures code < WORD && code != END
  {
    match t
    case BeginNode(_) => BEGIN_NODE
    case EndNode => END_NODE
    case Property(_, _) => PROP
    case NopToken => NOP
    case Unknown(code) => code
  }

  /** What follows a token's code word. */
  function Payload(t: Token): (s: seq<Byte>)
    requires Proper(t)
    ensures |s| % 4 == 0
  {
    match t
    case BeginNode(name) => Padded(name + [NUL])
    case Property(nameoff, data) => Words(|data|, nameoff) + Padded(data)
    case _ => []
  }

  function Words(v: nat, w: nat): (s: seq<Byte>)
    requires v < WORD && w < WORD
    ensures |s| == 8
  {
    Big(v) + Big(w)
  }

  function Padded(data: seq<Byte>): (s: seq<Byte>)
    ensures |s| % 4 == 0
  {
    data + Zeros(Pad(|data|))
  }

  /** A structure block: tokens, and the end token. */
  function Block(ts: seq<Token>): seq<Byte>
    requires forall t :: t in ts ==> Proper(t)
  {
    if ts == [] then Big(END) else Big(Code(ts[0])) + Payload(ts[0]) + Block(ts[1..])
  }

  /** A devicetree at dtb: its header's two offsets, and a structure block. */
  predicate TreeAt(m: seq<Byte>, dtb: nat, struct: nat, strings: nat, ts: seq<Token>) {
    && struct < WORD && strings < WORD && (dtb + struct) % 4 == 0
    && BytesAt(m, dtb + 8, Big(struct)) && BytesAt(m, dtb + 12, Big(strings))
    && (forall t :: t in ts ==> Proper(t)) && BytesAt(m, dtb + struct, Block(ts))
  }

  /** One call of the callback. */
  datatype Call = Call(name: nat, data: nat, len: nat)

  /** The calls that the tokens of the block at a call for. */
  function CallsFor(a: nat, ts: seq<Token>, strings: nat): seq<Call>
    requires forall t :: t in ts ==> Proper(t)
    decreases ts
  {
    if ts == [] then []
    else
      var later := CallsFor(a + 4 + |Payload(ts[0])|, ts[1..], strings);
      if ts[0].Property? then [Call(strings + ts[0].nameoff, a + 12, |ts[0].data|)] + later else later
  }

  // ----- the code -----

  lemma BlockStep(m: seq<Byte>, a: nat, ts: seq<Token>)
    requires (forall t :: t in ts ==> Proper(t)) && BytesAt(m, a, Block(ts))
    ensures ts == [] ==> BytesAt(m, a, Big(END))
    ensures ts != [] ==>
              var n := a + 4;
              && BytesAt(m, a, Big(Code(ts[0]))) && BytesAt(m, n, Payload(ts[0]))
              && BytesAt(m, n + |Payload(ts[0])|, Block(ts[1..]))
  {
    hide BytesAt, Big, Payload, Code;
    if ts != [] {
      SubBytes(m, a, Big(Code(ts[0])), Payload(ts[0]), Block(ts[1..]));
    }
  }

  lemma NameStep(m: seq<Byte>, a: nat, t: Token)
    requires Proper(t) && t.BeginNode? && BytesAt(m, a, Payload(t)) && a % 4 == 0
    ensures Terminated(m, a) && StrAt(m, a) == t.name
    ensures a + |Payload(t)| == (a + |t.name| + 1) + Pad(a + |t.name| + 1)
  {
    var z := Zeros(Pad(|t.name| + 1));
    SubBytes(m, a, t.name + [NUL], z, []);
    assert t.name + [NUL] + z + [] == Payload(t);
    StrReads(m, a, t.name);
    PadAligned(a, |t.name| + 1);
  }

  lemma PropStep(m: seq<Byte>, a: nat, t: Token)
    requires Proper(t) && t.Property? && BytesAt(m, a, Payload(t)) && a % 4 == 0
    ensures BytesAt(m, a, Big(|t.data|)) && BytesAt(m, a + 4, Big(t.nameoff)) && BytesAt(m, a + 8, t.data)
    ensures a + |Payload(t)| == (a + 8 + |t.data|) + Pad(a + 8 + |t.data|)
  {
    hide BytesAt, Big;
    PadAligned(a, 8 + |t.data|);
    DataStep(m, a, Big(|t.data|), Big(t.nameoff), t.data, Zeros(Pad(|t.data|)));
  }

  lemma DataStep(m: seq<Byte>, a: nat, x: seq<Byte>, y: seq<Byte>, data: seq<Byte>, z: seq<Byte>)
    requires BytesAt(m, a, x + y + (data + z))
    ensures BytesAt(m, a, x) && BytesAt(m, a + |x|, y) && BytesAt(m, a + |x| + |y|, data)
  {
    hide BytesAt;
    SubBytes(m, a, x, y, data + z);
    Sub(m, a + |x| + |y|, data + z, 0, |data|);
    assert (data + z)[0..|data|] == data;
  }

  /** dtb_parser, with the calls that it makes in the order it makes them */
  method DtbParser(m: seq<Byte>, dtb: nat, ghost struct: nat, ghost strings: nat, ghost ts: seq<Token>)
    returns (err: nat, calls: seq<Call>)
    requires dtb >= 10 ==> TreeAt(m, dtb, struct, strings, ts)
    ensures dtb < 10 ==> err == 1 && calls == []
    ensures dtb >= 10 ==> err == 0 && calls == CallsFor(dtb + struct, ts, dtb + strings)
  {
    hide BytesAt, Terminated, StrAt, Payload, Block, CallsFor, Big;
    calls := [];
    if dtb < 10 {
      return 1, calls;
    }
    var offStrings := ReadWord(m, dtb + 12, strings);
    var offStruct := ReadWord(m, dtb + 8, struct);
    var stringBlock := dtb + offStrings;
    var readHead := dtb + offStruct;
    ghost var rest := ts;
    var token := ReadToken(m, readHead, rest);
    readHead := readHead + 4;
    while token == NOP
      invariant readHead >= 4 && At(m, readHead - 4, rest) && token == TokenOf(rest)
      invariant CallsFor(readHead - 4, rest, stringBlock) == CallsFor(dtb + struct, ts, stringBlock)
      decreases |rest|
    {
      CallsStep(m, readHead - 4, rest, stringBlock);
      rest := rest[1..];
      token := ReadToken(m, readHead, rest);
      readHead := readHead + 4;
    }
    while token != END
      invariant readHead >= 4 && At(m, readHead - 4, rest) && token == TokenOf(rest)
      invariant calls + CallsFor(readHead - 4, rest, stringBlock) == CallsFor(dtb + struct, ts, stringBlock)
      decreases |rest|
    {
      ghost var a, t := readHead - 4, rest[0];
      CallsStep(m, a, rest, stringBlock);
      if token == BEGIN_NODE {
        NameStep(m, readHead, t);
        var size := GetSize(m, readHead);
        var name := readHead;
        readHead := AddPadding(name + size, 4);
        NextMultiple(name + size, readHead);
      } else if token == PROP {
        var call, after := ReadProperty(m, readHead, stringBlock, t);
        calls := calls + [call];
        readHead := after;
      }
      rest := rest[1..];
      token := ReadToken(m, readHead, rest);
      readHead := readHead + 4;
    }
    NoMoreCalls(readHead - 4, stringBlock);
    return 0, calls;
  }

  /** The FDT_PROP case: the call it makes, and where the next token is. */
  method ReadProperty(m: seq<Byte>, a: nat, stringBlock: nat, ghost t: Token) returns (call: Call, after: nat)
    requires Proper(t) && t.Property? && BytesAt(m, a, Payload(t)) && a % 4 == 0
    ensures call == Call(stringBlock + t.nameoff, a + 8, |t.data|) && after == a + |Payload(t)|
  {
    hide BytesAt, Payload, Big;
    PropStep(m, a, t);
    var readHead := a;
    var len := ReadWord(m, readHead, |t.data|);
    readHead := readHead + 4;
    var nameoff := ReadWord(m, readHead, t.nameoff);
    readHead := readHead + 4;
    call := Call(stringBlock + nameoff, readHead, len);
    after := AddPadding(readHead + len, 4);
    NextMultiple(readHead + len, after);
  }

  lemma NoMoreCalls(a: nat, strings: nat)
    ensures CallsFor(a, [], strings) == []
  {
  }

  /** The block of ts is at a, and a is a multiple of 4. */
  predicate At(m: seq<Byte>, a: nat, ts: seq<Token>) {
    a % 4 == 0 && (forall t :: t in ts ==> Proper(t)) && BytesAt(m, a, Block(ts))
  }

  function TokenOf(ts: seq<Token>): (token: nat)
    requires forall t :: t in ts ==> Proper(t)
    ensures token < WORD && (token == END <==> ts == [])
  {
    if ts == [] then END else Code(ts[0])
  }

  method ReadToken(m: seq<Byte>, a: nat, ghost ts: seq<Token>) returns (token: nat)
    requires At(m, a, ts)
    ensures token == TokenOf(ts)
  {
    hide BytesAt, Big, Payload, Block;
    BlockStep(m, a, ts);
    token := ReadWord(m, a, TokenOf(ts));
  }

  lemma CallsStep(m: seq<Byte>, a: nat, ts: seq<Token>, strings: nat)
    requires At(m, a, ts) && ts != []
    ensures Proper(ts[0]) && BytesAt(m, a + 4, Payload(ts[0]))
    ensures !ts[0].Property? && !ts[0].BeginNode? ==> Payload(ts[0]) == []
    ensures At(m, a + 4 + |Payload(ts[0])|, ts[1..])
    ensures CallsFor(a, ts, strings) ==
            (if ts[0].Property? then [Call(strings + ts[0].nameoff, a + 12, |ts[0].data|)] else []) +
            CallsFor(a + 4 + |Payload(ts[0])|, ts[1..], strings)
  {
    hide BytesAt, Big, Block, CallsFor, Payload;
    assert ts[0] in ts;
    BlockStep(m, a, ts);
    CallsUnfold(a, ts, strings);
    NoPayload(ts[0]);
  }

  lemma NoPayload(t: Token)
    requires Proper(t)
    ensures !t.Property? && !t.BeginNode? ==> Payload(t) == []
  {
  }

  lemma CallsUnfold(a: nat, ts: seq<Token>, strings: nat)
    requires (forall t :: t in ts ==> Proper(t)) && ts != []
    ensures CallsFor(a, ts, strings) ==
            (if ts[0].Property? then [Call(strings + ts[0].nameoff, a + 12, |ts[0].data|)] else []) +
            CallsFor(a + 4 + |Payload(ts[0])|, ts[1..], strings)
  {
    hide Payload, Big;
  }

  // ----- once per property, in document order -----

  /** A call hands over a property: its name, its data and the data's length. */
  predicate Hands(m: seq<Byte>, strings: nat, c: Call, p: (nat, seq<Byte>)) {
    c.name == strings + p.0 && c.len == |p.1| && BytesAt(m, c.data, p.1)
  }

  predicate HandsAll(m: seq<Byte>, strings: nat, calls: seq<Call>, ps: seq<(nat, seq<Byte>)>) {
    |calls| == |ps| && forall i :: 0 <= i < |ps| ==> Hands(m, strings, calls[i], ps[i])
  }

  function PropertiesOf(ts: seq<Token>): seq<(nat, seq<Byte>)> {
    if ts == [] then []
    else if ts[0].Property? then [(ts[0].nameoff, ts[0].data)] + PropertiesOf(ts[1..])
    else PropertiesOf(ts[1..])
  }

  lemma {:induction false} CallsHand(m: seq<Byte>, a: nat, ts: seq<Token>, strings: nat)
    requires At(m, a, ts)
    ensures HandsAll(m, strings, CallsFor(a, ts, strings), PropertiesOf(ts))
    decreases ts
  {
    hide BytesAt, Big, Block, CallsFor, Payload;
    if ts == [] {
      NoMoreCalls(a, strings);
    } else {
      CallsStep(m, a, ts, strings);
      CallsHand(m, a + 4 + |Payload(ts[0])|, ts[1..], strings);
      if ts[0].Property? {
        PropStep(m, a + 4, ts[0]);
      }
    }
  }

  lemma {:induction false} PropertiesConcat(xs: seq<Token>, ys: seq<Token>)
    ensures PropertiesOf(xs + ys) == PropertiesOf(xs) + PropertiesOf(ys)
  {
    if xs == [] {
      assert xs + ys == ys;
    } else {
      assert (xs + ys)[1..] == xs[1..] + ys;
      PropertiesConcat(xs[1..], ys);
    }
  }

  lemma {:induction false} FlattenKeepsProperties(items: Items)
    ensures PropertiesOf(Flatten(items)) == Properties(items)
  {
    match items
    case Done =>
    case Nop(rest) => FlattenKeepsProperties(rest);
    case Prop(_, _, rest) => FlattenKeepsProperties(rest);
    case Node(name, body, rest) =>
      FlattenKeepsProperties(body);
      FlattenKeepsProperties(rest);
      var b, r := Flatten(body), Flatten(rest);
      PropertiesConcat([BeginNode(name)] + b + [EndNode], r);
      PropertiesConcat([BeginNode(name)] + b, [EndNode]);
      PropertiesConcat([BeginNode(name)], b);
  }

  /** For a flattened tree, the calls hand over its properties once each, in document order. */
  lemma TreeCalls(m: seq<Byte>, dtb: nat, struct: nat, strings: nat, items: Items)
    requires TreeAt(m, dtb, struct, strings, Flatten(items))
    ensures HandsAll(m, dtb + strings, CallsFor(dtb + struct, Flatten(items), dtb + strings), Properties(items))
  {
    hide HandsAll, CallsFor, BytesAt;
    CallsHand(m, dtb + struct, Flatten(items), dtb + strings);
    FlattenKeepsProperties(items);
  }

  // ----- finding the archive -----

  const INITRD_START: seq<Byte> :=
    [108, 105, 110, 117, 120, 44, 105, 110, 105, 116, 114, 100, 45, 115, 116, 97, 114, 116]
  const INITRD_KEY: seq<Byte> := INITRD_START + [NUL]

  ghost predicate Readable(m: seq<Byte>, c: Call) {
    Terminated(m, c.name) && c.data + 4 <= |m|
  }

  /** What the callback set_initramfs leaves after some calls: the word at the data of the last
      property of the name, or what was there before. */
  function LastWord(m: seq<Byte>, calls: seq<Call>, was: nat): nat
    requires forall c :: c in calls ==> Readable(m, c)
  {
    if calls == [] then was
    else
      var c := calls[|calls| - 1];
      assert Readable(m, c);
      if StrAt(m, c.name) == INITRD_START then Value(m[c.data..c.data + 4], 256)
      else LastWord(m, calls[..|calls| - 1], was)
  }

  /** Every name ends, and an archive property holds a word at least. */
  ghost predicate HoldWords(m: seq<Byte>, strings: nat, ps: seq<(nat, seq<Byte>)>) {
    forall p :: p in ps ==>
      Terminated(m, strings + p.0) && (StrAt(m, strings + p.0) == INITRD_START ==> |p.1| >= 4)
  }

  /** The word at the start of the last property of the name, or what was there before. */
  function LastStart(m: seq<Byte>, strings: nat, ps: seq<(nat, seq<Byte>)>, was: nat): nat
    requires HoldWords(m, strings, ps)
  {
    if ps == [] then was
    else
      var p := ps[|ps| - 1];
      if StrAt(m, strings + p.0) == INITRD_START then Value(p.1[..4], 256)
      else LastStart(m, strings, ps[..|ps| - 1], was)
  }

  /** Behind every property there is at least the next token, so a word can be read. */
  lemma {:induction false} CallsReadable(m: seq<Byte>, a: nat, ts: seq<Token>, strings: nat)
    requires At(m, a, ts)
    ensures a + 4 <= |m| && forall c :: c in CallsFor(a, ts, strings) ==> c.data + 4 <= |m|
    decreases ts
  {
    hide Big, CallsFor, Payload;
    BlockStep(m, a, ts);
    if ts == [] {
      NoMoreCalls(a, strings);
      BigLength(END);
    } else {
      CallsStep(m, a, ts, strings);
      CallsReadable(m, a + 4 + |Payload(ts[0])|, ts[1..], strings);
      if ts[0].Property? {
        PropStep(m, a + 4, ts[0]);
      }
    }
  }

  lemma BigLength(w: nat)
    requires w < WORD
    ensures |Big(w)| == 4
  {
  }

  /** init_ramfile: dtb_parser with set_initramfs for its callback */
  method InitRamfile(m: seq<Byte>, dtb: nat, was: nat, ghost struct: nat, ghost strings: nat, ghost ts: seq<Token>)
    returns (initramfs: nat)
    requires dtb >= 10 && TreeAt(m, dtb, struct, strings, ts)
    requires forall p :: p in PropertiesOf(ts) ==> Terminated(m, dtb + strings + p.0)
    ensures forall c :: c in CallsFor(dtb + struct, ts, dtb + strings) ==> Readable(m, c)
    ensures initramfs == LastWord(m, CallsFor(dtb + struct, ts, dtb + strings), was)
  {
    hide TreeAt, PropertiesOf, CallsFor, StrAt, Terminated, Value, BytesAt, Block;
    ReadableCalls(m, dtb, struct, strings, ts);
    var err, calls := DtbParser(m, dtb, struct, strings, ts);
    initramfs := was;
    NoNul(INITRD_KEY, 0, INITRD_START);
    for i := 0 to |calls|
      invariant initramfs == LastWord(m, calls[..i], was)
    {
      assert calls[..i + 1][..i] == calls[..i] && calls[..i + 1][i] == calls[i];
      assert Readable(m, calls[i]);
      var same := StrCmp(INITRD_KEY, 0, m, calls[i].name);
      if same {
        var d := calls[i].data;
        LoadedFour(m, d);
        initramfs := ToLeU32(LoadWord(m, d), m[d..d + 4]);
      }
    }
    assert calls[..|calls|] == calls;
  }

  lemma ReadableCalls(m: seq<Byte>, dtb: nat, struct: nat, strings: nat, ts: seq<Token>)
    requires TreeAt(m, dtb, struct, strings, ts)
    requires forall p :: p in PropertiesOf(ts) ==> Terminated(m, dtb + strings + p.0)
    ensures forall c :: c in CallsFor(dtb + struct, ts, dtb + strings) ==> Readable(m, c)
  {
    hide BytesAt, Block, CallsFor, PropertiesOf, Terminated;
    var calls := CallsFor(dtb + struct, ts, dtb + strings);
    CallsHand(m, dtb + struct, ts, dtb + strings);
    CallsReadable(m, dtb + struct, ts, dtb + strings);
    forall i | 0 <= i < |calls|
      ensures Readable(m, calls[i])
    {
      assert PropertiesOf(ts)[i] in PropertiesOf(ts) && Hands(m, dtb + strings, calls[i], PropertiesOf(ts)[i]);
      assert calls[i] in calls;
    }
  }

  /** In a tree whose archive properties hold a word at least, the archive is where the last of them,
      in document order, says. */
  lemma ArchiveStart(m: seq<Byte>, dtb: nat, struct: nat, strings: nat, items: Items, was: nat)
    requires TreeAt(m, dtb, struct, strings, Flatten(items)) && HoldWords(m, dtb + strings, Properties(items))
    ensures var calls := CallsFor(dtb + struct, Flatten(items), dtb + strings);
            && (forall c :: c in calls ==> Readable(m, c))
            && LastWord(m, calls, was) == LastStart(m, dtb + strings, Properties(items), was)
  {
    hide Flatten, Properties, CallsFor, Terminated, StrAt, BytesAt, Block, Readable, INITRD_START;
    TreeCalls(m, dtb, struct, strings, items);
    FlattenKeepsProperties(items);
    ReadableCalls(m, dtb, struct, strings, Flatten(items));
    var calls := CallsFor(dtb + struct, Flatten(items), dtb + strings);
    SameStart(m, dtb + strings, calls, Properties(items), was);
  }

  lemma {:induction false} SameStart(m: seq<Byte>, strings: nat, calls: seq<Call>, ps: seq<(nat, seq<Byte>)>, was: nat)
    requires (forall c :: c in calls ==> Readable(m, c)) && HandsAll(m, strings, calls, ps)
    requires HoldWords(m, strings, ps)
    ensures LastWord(m, calls, was) == LastStart(m, strings, ps, was)
    decreases |ps|
  {
    hide StrAt, Value, BytesAt, Readable, Terminated, Hands, INITRD_START;
    if ps != [] {
      var n := |ps| - 1;
      assert calls[n] in calls && ps[n] in ps;
      SameLast(m, strings, calls[n], ps[n]);
      SameStart(m, strings, calls[..n], ps[..n], was);
    }
  }

  /** A call and the property that it hands over say the same of the archive. */
  lemma SameLast(m: seq<Byte>, strings: nat, c: Call, p: (nat, seq<Byte>))
    requires Readable(m, c) && Hands(m, strings, c, p) && Terminated(m, strings + p.0)
    requires StrAt(m, strings + p.0) == INITRD_START ==> |p.1| >= 4
    ensures c.name == strings + p.0 && c.data + 4 <= |m|
    ensures StrAt(m, strings + p.0) == INITRD_START ==> m[c.data..c.data + 4] == p.1[..4]
  {
    hide StrAt, BytesAt, Terminated, INITRD_START;
    if StrAt(m, c.name) == INITRD_START {
      FirstFour(m, c.data, p.1);
    }
  }

  /** A shorter property is read on into its padding, and an empty one into the next token. */
  lemma ShortStart(m: seq<Byte>, a: nat, ts: seq<Token>)
    requires At(m, a, ts) && ts != [] && ts[0].Property? && |ts[0].data| < 4
    ensures a + 16 <= |m|
    ensures Value(m[a + 12..a + 16], 256) ==
              if ts[0].data == [] then TokenOf(ts[1..]) else Value(ts[0].data + Zeros(4 - |ts[0].data|), 256)
  {
    hide Value, Block, Big;
    var t := ts[0];
    BlockStep(m, a, ts);
    assert ts[0] in ts;
    if t.data == [] {
      BlockStep(m, a + 12, ts[1..]);
      BigValue(TokenOf(ts[1..]));
    } else {
      var d := t.data + Zeros(Pad(|t.data|));
      SubBytes(m, a + 4, Big(|t.data|) + Big(t.nameoff), d, []);
      assert Big(|t.data|) + Big(t.nameoff) + d + [] == Payload(t);
    }
  }

  lemma FirstFour(m: seq<Byte>, d: nat, data: seq<Byte>)
    requires BytesAt(m, d, data) && |data| >= 4
    ensures d + 4 <= |m| && m[d..d + 4] == data[..4]
    ensures LoadWord(m, d) == Loaded(data[..4])
  {
    Sub(m, d, data, 0, 4);
    LoadedFour(m, d);
  }
}
