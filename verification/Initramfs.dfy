/** lib/file_sys/initramfs.c: the walks over a cpio archive in the "newc" format. */
module Initramfs {
  import opened Machine
  import opened StrUtils

  const HEADER_SIZE: nat := 110
  const FILESIZE: nat := 54  // offset of c_filesize
  const NAMESIZE: nat := 94  // offset of c_namesize
  const MAGIC: seq<Byte> := [48, 55, 48, 55, 48, 49]                        // 070701
  const TRAILER: seq<Byte> := [84, 82, 65, 73, 76, 69, 82, 33, 33, 33]      // TRAILER!!!
  const LIMIT: nat := 0x100_0000

  // ----- the archive -----

  /** One member of an archive; of its header only the magic and two sizes matter. */
  datatype Entry = Entry(header: seq<Byte>, name: seq<Byte>, data: seq<Byte>)

  /** The header says what follows it, and carrtoi can read that. */
  predicate Proper(e: Entry) {
    && |e.header| == HEADER_SIZE && MAGIC <= e.header && NUL !in e.name
    && HexField(e.header[FILESIZE..FILESIZE + 8], |e.data|) && |e.data| < LIMIT
    && HexField(e.header[NAMESIZE..NAMESIZE + 8], |e.name| + 1) && |e.name| + 1 < LIMIT
  }

  /** The header and the name with its NUL, padded. */
  function Front(e: Entry): seq<Byte> {
    e.header + e.name + [NUL] + Zeros(Pad(|e.header| + |e.name| + 1))
  }

  function Encode(e: Entry): seq<Byte> {
    Front(e) + (e.data + Zeros(Pad(|e.data|)))
  }

  function Pack(files: seq<Entry>): seq<Byte> {
    if files == [] then [] else Encode(files[0]) + Pack(files[1..])
  }

  /** A list of files none of which is named as the trailer. */
  predicate Files(files: seq<Entry>) {
    forall i :: 0 <= i < |files| ==> Proper(files[i]) && files[i].name != TRAILER
  }

  predicate IsTrailer(e: Entry) {
    Proper(e) && e.name == TRAILER && e.data == []
  }

  // ----- the archive in memory -----

  /** What comes after the files: the trailer, or something that is no header. */
  datatype Tail = Trailer(e: Entry) | NoHeader

  predicate TailAt(m: seq<Byte>, a: nat, tail: Tail) {
    match tail
    case Trailer(e) => IsTrailer(e) && BytesAt(m, a, Encode(e))
    case NoHeader => a + 6 <= |m| && m[a..a + 6] != MAGIC
  }

  predicate ArchiveAt(m: seq<Byte>, a: nat, files: seq<Entry>, tail: Tail) {
    Files(files) && BytesAt(m, a, Pack(files)) && TailAt(m, a + |Pack(files)|, tail)
  }

  /** Where the data of the first file of a name is, and its size. */
  datatype Place = Place(address: nat, size: nat) | Absent

  function Lookup(a: nat, files: seq<Entry>, name: seq<Byte>): Place
    decreases files
  {
    if files == [] then Absent
    else if files[0].name == name then Place(a + |Front(files[0])|, |files[0].data|)
    else Lookup(a + |Encode(files[0])|, files[1..], name)
  }

  lemma LookupStep(a: nat, files: seq<Entry>, name: seq<Byte>)
    ensures Lookup(a, files, name) ==
            if files == [] then Absent
            else if files[0].name == name then Place(a + |Front(files[0])|, |files[0].data|)
            else Lookup(a + |Encode(files[0])|, files[1..], name)
  {
  }

  lemma {:induction false} PackSplit(files: seq<Entry>, k: nat)
    requires k < |files|
    ensures Pack(files) == Pack(files[..k]) + Encode(files[k]) + Pack(files[k + 1..])
  {
    if k == 0 {
      assert files[..0] == [];
    } else {
      var rest := files[1..];
      PackSplit(rest, k - 1);
      assert files[..k][1..] == rest[..k - 1] && rest[k..] == files[k + 1..];
      Assoc(Encode(files[0]), Pack(rest[..k - 1]), Encode(files[k]), Pack(files[k + 1..]));
    }
  }

  lemma Assoc(a: seq<Byte>, b: seq<Byte>, c: seq<Byte>, d: seq<Byte>)
    ensures a + (b + c + d) == (a + b) + c + d
  {
  }

  /** Lookup finds the first file of the name, wherever it stands in the archive. */
  lemma {:induction false} LookupFirst(a: nat, files: seq<Entry>, name: seq<Byte>, k: nat)
    requires k < |files| && files[k].name == name && forall i :: 0 <= i < k ==> files[i].name != name
    ensures Lookup(a, files, name) == Place(a + |Pack(files[..k])| + |Front(files[k])|, |files[k].data|)
    decreases k
  {
    if k == 0 {
      assert files[..0] == [];
    } else {
      LookupFirst(a + |Encode(files[0])|, files[1..], name, k - 1);
      assert files[..k][1..] == files[1..][..k - 1];
    }
  }

  lemma {:induction false} LookupAbsent(a: nat, files: seq<Entry>, name: seq<Byte>)
    requires forall i :: 0 <= i < |files| ==> files[i].name != name
    ensures Lookup(a, files, name) == Absent
    decreases files
  {
    if files != [] {
      LookupAbsent(a + |Encode(files[0])|, files[1..], name);
    }
  }

  /** The place that Lookup gives holds the data of the file. */
  lemma LookupHolds(m: seq<Byte>, a: nat, files: seq<Entry>, name: seq<Byte>, k: nat)
    requires BytesAt(m, a, Pack(files))
    requires k < |files| && files[k].name == name && forall i :: 0 <= i < k ==> files[i].name != name
    ensures var p := Lookup(a, files, name); p.Place? && BytesAt(m, p.address, files[k].data)
  {
    hide Encode, Pack, Front, BytesAt, Lookup;
    var f := files[k];
    LookupFirst(a, files, name, k);
    PackSplit(files, k);
    SubBytes(m, a, Pack(files[..k]), Encode(f), Pack(files[k + 1..]));
    EntryParts(m, a + |Pack(files[..k])|, f);
  }

  lemma EntryParts(m: seq<Byte>, a: nat, e: Entry)
    requires BytesAt(m, a, Encode(e))
    ensures BytesAt(m, a, e.header) && BytesAt(m, a + |e.header|, e.name + [NUL])
    ensures BytesAt(m, a + |Front(e)|, e.data)
  {
    hide BytesAt;
    var z, w := Zeros(Pad(|e.header| + |e.name| + 1)), Zeros(Pad(|e.data|));
    assert Encode(e) == Front(e) + e.data + w;
    SubBytes(m, a, Front(e), e.data, w);
    assert Front(e) == e.header + (e.name + [NUL]) + z;
    SubBytes(m, a, e.header, e.name + [NUL], z);
  }

  lemma EntrySize(e: Entry)
    requires |e.header| == HEADER_SIZE
    ensures |Encode(e)| == |Front(e)| + |e.data| + Pad(|e.data|)
    ensures |Front(e)| == HEADER_SIZE + |e.name| + 1 + Pad(HEADER_SIZE + |e.name| + 1)
  {
  }

  lemma ProperReads(e: Entry)
    requires Proper(e)
    ensures |e.header| == HEADER_SIZE && e.header[..6] == MAGIC && NUL !in e.name
    ensures FieldValue(e.header[FILESIZE..FILESIZE + 8], HEX) == |e.data|
    ensures FieldValue(e.header[NAMESIZE..NAMESIZE + 8], HEX) == |e.name| + 1
  {
    hide HexField, FieldValue;
    FieldReadsLow(e.header[FILESIZE..FILESIZE + 8], |e.data|);
    FieldReadsLow(e.header[NAMESIZE..NAMESIZE + 8], |e.name| + 1);
  }

  /** What the walks read of an entry. */
  lemma EntryReads(m: seq<Byte>, a: nat, e: Entry)
    requires BytesAt(m, a, Encode(e)) && Proper(e)
    ensures a + HEADER_SIZE < |m| && m[a..a + 6] == MAGIC
    ensures FieldValue(m[a + FILESIZE..a + FILESIZE + 8], HEX) == |e.data|
    ensures FieldValue(m[a + NAMESIZE..a + NAMESIZE + 8], HEX) == |e.name| + 1
    ensures Terminated(m, a + HEADER_SIZE) && StrAt(m, a + HEADER_SIZE) == e.name
    ensures |Encode(e)| == |Front(e)| + |e.data| + Pad(|e.data|)
    ensures |Front(e)| == HEADER_SIZE + |e.name| + 1 + Pad(HEADER_SIZE + |e.name| + 1)
  {
    hide Encode, Front, BytesAt, Proper, FieldValue, Terminated, StrAt;
    ProperReads(e);
    EntrySize(e);
    EntryParts(m, a, e);
    HeaderReads(m, a, e.header);
    StrReads(m, a + HEADER_SIZE, e.name);
  }

  lemma HeaderReads(m: seq<Byte>, a: nat, h: seq<Byte>)
    requires BytesAt(m, a, h) && |h| == HEADER_SIZE
    ensures m[a..a + 6] == h[..6]
    ensures m[a + FILESIZE..a + FILESIZE + 8] == h[FILESIZE..FILESIZE + 8]
    ensures m[a + NAMESIZE..a + NAMESIZE + 8] == h[NAMESIZE..NAMESIZE + 8]
  {
    Sub(m, a, h, 0, 6);
    Sub(m, a, h, FILESIZE, FILESIZE + 8);
    Sub(m, a, h, NAMESIZE, NAMESIZE + 8);
  }

  // ----- the code -----

  /** check_magic */
  method CheckMagic(m: seq<Byte>, a: nat) returns (ok: bool)
    requires a + 6 <= |m|
    ensures ok <==> m[a..a + 6] == MAGIC
  {
    for i := 0 to 6
      invariant forall j :: 0 <= j < i ==> m[a + j] == MAGIC[j]
    {
      if m[a + i] != MAGIC[i] {
        assert m[a..a + 6][i] != MAGIC[i];
        return false;
      }
    }
    return true;
  }

  /** `while(mem % 4) mem++` */
  method AlignUp(a: nat) returns (mem: nat)
    ensures mem == a + Pad(a)
  {
    mem := a;
    while mem % 4 != 0
      invariant a <= mem <= a + Pad(a)
      decreases a + Pad(a) - mem
    {
      mem := mem + 1;
    }
  }

  const TERMINATOR: seq<Byte> := TRAILER + [NUL]

  lemma TerminatorReads()
    ensures Terminated(TERMINATOR, 0) && StrAt(TERMINATOR, 0) == TRAILER
  {
    NoNul(TERMINATOR, 0, TRAILER);
  }

  /** The first entry of an archive, or what stands in its place. */
  lemma ArchiveFirst(m: seq<Byte>, a: nat, files: seq<Entry>, tail: Tail)
    requires ArchiveAt(m, a, files, tail)
    ensures files != [] ==> Proper(files[0]) && BytesAt(m, a, Encode(files[0])) && files[0].name != TRAILER
                            && ArchiveAt(m, a + |Encode(files[0])|, files[1..], tail)
    ensures files == [] ==> TailAt(m, a, tail)
  {
    hide Encode, BytesAt, TailAt, Proper;
    if files != [] {
      var f, rest := Encode(files[0]), Pack(files[1..]);
      assert Pack(files) == [] + f + rest && |Pack(files)| == |f| + |rest|;
      SubBytes(m, a, [], f, rest);
      assert Files(files[1..]);
    }
  }

  /** The first 6 bytes of an archive can be read; if they are the magic, so can an entry. */
  lemma FirstHeader(m: seq<Byte>, a: nat, files: seq<Entry>, tail: Tail) returns (e: Entry)
    requires ArchiveAt(m, a, files, tail)
    ensures a + 6 <= |m| && (m[a..a + 6] == MAGIC <==> files != [] || tail.Trailer?)
    ensures files != [] || tail.Trailer? ==>
              && Proper(e) && BytesAt(m, a, Encode(e)) && e == (if files != [] then files[0] else tail.e)
              && (e.name == TRAILER <==> files == []) && (files == [] ==> e.data == [])
  {
    hide Encode, BytesAt, Proper, ArchiveAt, Pack;
    ArchiveFirst(m, a, files, tail);
    e := Entry([], [], []);
    if files != [] {
      e := files[0];
      EntryReads(m, a, e);
    } else if tail.Trailer? {
      e := tail.e;
      EntryReads(m, a, e);
    }
  }

  /** The two sizes that the walks take from a header. */
  method ReadSizes(m: seq<Byte>, a: nat, ghost e: Entry) returns (pathsize: int, filesize: int)
    requires BytesAt(m, a, Encode(e)) && Proper(e)
    ensures pathsize == |e.name| + 1 && filesize == |e.data|
  {
    hide Encode, Front, BytesAt, Proper, FieldValue, Terminated, StrAt;
    EntryReads(m, a, e);
    pathsize := CarrToI(m, a + NAMESIZE, 8, HEX);
    filesize := CarrToI(m, a + FILESIZE, 8, HEX);
  }

  /** find_address, once the archive's address is set; a null name gives 0. */
  method FindAddress(m: seq<Byte>, base: nat, filename: nat, ghost files: seq<Entry>, ghost tail: Tail)
    returns (address: nat, size: int)
    requires base % 4 == 0 && ArchiveAt(m, base, files, tail)
    requires filename != 0 ==> Terminated(m, filename)
    ensures filename == 0 ==> address == 0
    ensures filename != 0 ==>
              match Lookup(base, files, StrAt(m, filename))
              case Place(a, n) => address == a && size == n
              case Absent => if tail.Trailer? then address == 0 && size == 0 else address == 1
  {
    hide Encode, Front, BytesAt, Proper, ArchiveAt, Pack, FieldValue, Terminated, StrAt, Lookup, TailAt,
         IsTrailer, Pad;
    size := 0;
    if filename == 0 {
      return 0, size;
    }
    TerminatorReads();
    ghost var name := StrAt(m, filename);
    ghost var rest := files;
    var mem: nat, found := base, false;
    while true
      invariant mem % 4 == 0 && ArchiveAt(m, mem, rest, tail)
      invariant Lookup(mem, rest, name) == Lookup(base, files, name)
      decreases |rest|
    {
      ghost var e := FirstHeader(m, mem, rest, tail);
      ArchiveFirst(m, mem, rest, tail);
      LookupStep(mem, rest, name);
      var magic := CheckMagic(m, mem);
      if !magic {
        return 1, size;
      }
      EntryReads(m, mem, e);
      var pathsize, filesize := ReadSizes(m, mem, e);
      size := filesize;
      ghost var start := mem;
      mem := mem + HEADER_SIZE;
      var last := StrCmp(m, mem, TERMINATOR, 0);
      if last {
        return 0, size;
      }
      found := StrCmp(m, mem, m, filename);
      PadAligned(start, HEADER_SIZE + |e.name| + 1);
      mem := AlignUp(mem + pathsize);
      if found {
        return mem, size;
      }
      PadAligned(mem, |e.data|);
      mem := AlignUp(mem + size);
      rest := rest[1..];
    }
  }

  /** get_ramfs_size: the bytes up to the end of the trailer, as a 32-bit word. */
  method GetRamfsSize(m: seq<Byte>, base: nat, ghost files: seq<Entry>, ghost tail: Tail) returns (size: nat)
    requires base % 4 == 0 && ArchiveAt(m, base, files, tail)
    ensures size == match tail case Trailer(e) => |Pack(files) + Encode(e)| % WORD case NoHeader => 1
  {
    hide Encode, Front, BytesAt, Proper, ArchiveAt, FieldValue, Terminated, StrAt, TailAt, IsTrailer, Pad;
    TerminatorReads();
    ghost var rest := files;
    var mem: nat := base;
    while true
      invariant mem % 4 == 0 && ArchiveAt(m, mem, rest, tail)
      invariant mem + |Pack(rest)| == base + |Pack(files)|
      decreases |rest|
    {
      ghost var e := FirstHeader(m, mem, rest, tail);
      ArchiveFirst(m, mem, rest, tail);
      var magic := CheckMagic(m, mem);
      if !magic {
        return 1;
      }
      EntryReads(m, mem, e);
      var pathsize, filesize := ReadSizes(m, mem, e);
      ghost var start := mem;
      mem := mem + HEADER_SIZE;
      PadAligned(start, HEADER_SIZE + |e.name| + 1);
      var last := StrCmp(m, mem, TERMINATOR, 0);
      if last {
        mem := AlignUp(mem + pathsize);
        break;
      }
      mem := AlignUp(mem + pathsize);
      PadAligned(mem, |e.data|);
      mem := AlignUp(mem + filesize);
      rest := rest[1..];
    }
    size := (mem - base) % WORD;
  }

  // ----- one reading -----

  /** The names and contents of the files. */
  function Listing(files: seq<Entry>): (r: seq<(seq<Byte>, seq<Byte>)>)
    ensures |r| == |files|
  {
    seq(|files|, i requires 0 <= i < |files| => (files[i].name, files[i].data))
  }

  /** Memory holds one archive at an address, however one reads it. */
  lemma {:induction false} Unambiguous(m: seq<Byte>, a: nat, xs: seq<Entry>, t: Tail, ys: seq<Entry>, u: Tail)
    requires ArchiveAt(m, a, xs, t) && ArchiveAt(m, a, ys, u)
    ensures Listing(xs) == Listing(ys) && t.Trailer? == u.Trailer?
    decreases |xs|
  {
    hide ArchiveAt, Proper, BytesAt, Encode, Front, FieldValue, Terminated, StrAt;
    var d := FirstHeader(m, a, xs, t);
    var e := FirstHeader(m, a, ys, u);
    ArchiveFirst(m, a, xs, t);
    ArchiveFirst(m, a, ys, u);
    if m[a..a + 6] == MAGIC {
      SameEntry(m, a, d, e);
      if xs != [] {
        Unambiguous(m, a + |Encode(d)|, xs[1..], t, ys[1..], u);
        ListingCons(xs);
        ListingCons(ys);
      }
    }
  }

  lemma ListingCons(xs: seq<Entry>)
    requires xs != []
    ensures Listing(xs) == [(xs[0].name, xs[0].data)] + Listing(xs[1..])
  {
  }

  lemma SameEntry(m: seq<Byte>, a: nat, d: Entry, e: Entry)
    requires BytesAt(m, a, Encode(d)) && Proper(d) && BytesAt(m, a, Encode(e)) && Proper(e)
    ensures d.name == e.name && d.data == e.data && |Encode(d)| == |Encode(e)|
  {
    hide Encode, Front, Proper, BytesAt, FieldValue, Terminated, StrAt;
    EntryReads(m, a, d);
    EntryReads(m, a, e);
    EntryParts(m, a, d);
    EntryParts(m, a, e);
    SameBytes(m, a + |Front(d)|, d.data, e.data);
  }
}
