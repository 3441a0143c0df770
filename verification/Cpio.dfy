/** The archive reader of kernel/src/fs/initrd/cpio.c for the "New ASCII Format" of cpio(5), with the number parser of
    kernel/src/util/memory.c. */
module Cpio {
  import opened Words

  type Byte = b: nat | b < 256

  // ---- numbers

  predicate IsSpace(b: Byte) {
    b == 32 || 9 <= b <= 13
  }

  /** The value of a digit, or -1. */
  function Digit(b: Byte): int {
    if 48 <= b <= 57 then b - 48
    else if 97 <= b <= 102 then b - 97 + 10
    else if 65 <= b <= 70 then b - 65 + 10
    else -1
  }

  /** A string ends where its bytes do. */
  function CharAt(s: seq<Byte>, i: nat): Byte {
    if i < |s| then s[i] else 0
  }

  function AfterSpaces(s: seq<Byte>): seq<Byte> {
    if s != [] && IsSpace(s[0]) then AfterSpaces(s[1..]) else s
  }

  /** The digits at the front of a string read in a base, in 64-bit arithmetic. */
  function Read(s: seq<Byte>, base: nat, acc: nat): nat {
    if s == [] || Digit(s[0]) < 0 || Digit(s[0]) >= base then acc
      else Read(s[1..], base, Append(acc, base, Digit(s[0])))
  }

  /** One digit more, in 64 bits. */
  function Append(acc: nat, base: nat, digit: nat): nat {
    (acc * base + digit) % WORD
  }

  predicate HexPrefix(s: seq<Byte>) {
    CharAt(s, 0) == 48 && (CharAt(s, 1) == 120 || CharAt(s, 1) == 88)
  }

  function Strtoull(s: seq<Byte>, base: nat): nat {
    var t := AfterSpaces(s);
    var hex := (base == 0 || base == 16) && HexPrefix(t);
    var u := if hex then t[2..] else t;
    Read(u, if hex then 16 else if base == 0 then (if CharAt(u, 0) == 48 then 8 else 10) else base, 0)
  }

  /** strtoull on a string without a NUL byte. */
  method ParseNumber(s: seq<Byte>, base0: nat) returns (result: nat)
    requires 0 !in s
    ensures result == Strtoull(s, base0)
  {
    var base, i := base0, 0;
    while IsSpace(CharAt(s, i))
      invariant i <= |s| && AfterSpaces(s[i..]) == AfterSpaces(s)
      decreases |s| - i
    {
      assert s[i..][1..] == s[i+1..];
      i := i + 1;
    }
    ghost var t := s[i..];
    assert t == AfterSpaces(s);
    if (base == 0 || base == 16) && CharAt(s, i) == 48 && (CharAt(s, i + 1) == 120 || CharAt(s, i + 1) == 88) {
      base := 16;
      i := i + 2;
      assert s[i..] == t[2..];
    }
    if base == 0 {
      base := if CharAt(s, i) == 48 then 8 else 10;
    }
    result := ReadDigits(s, i, base);
  }

  /** The digits from place `from` on. */
  method ReadDigits(s: seq<Byte>, from: nat, base: nat) returns (result: nat)
    requires 0 !in s && from <= |s|
    ensures result == Read(s[from..], base, 0)
  {
    hide Append;
    var i := from;
    result := 0;
    while CharAt(s, i) != 0
      invariant i <= |s| && Read(s[i..], base, result) == Read(s[from..], base, 0)
      decreases |s| - i
    {
      var digit := Digit(s[i]);
      assert s[i..][1..] == s[i+1..];
      if digit < 0 || digit >= base {
        break;
      }
      result := Append(result, base, digit);
      i := i + 1;
    }
  }

  // ---- printing numbers

  function HexDigit(v: nat, upper: bool): Byte
    requires v < 16
  {
    if v < 10 then 48 + v else if upper then 65 + v - 10 else 97 + v - 10
  }

  function Pow16(n: nat): nat {
    if n == 0 then 1 else 16 * Pow16(n - 1)
  }

  /** The lowest `n` hexadecimal digits of a number. */
  function Hex(v: nat, n: nat, upper: bool): (s: seq<Byte>)
    ensures |s| == n
  {
    if n == 0 then [] else Hex(v / 16, n - 1, upper) + [HexDigit(v % 16, upper)]
  }

  lemma {:induction false} HexIsDigits(v: nat, n: nat, upper: bool, i: nat)
    requires i < n
    ensures 0 <= Digit(Hex(v, n, upper)[i]) < 16 && Hex(v, n, upper)[i] != 120 && Hex(v, n, upper)[i] != 88
    ensures !IsSpace(Hex(v, n, upper)[i]) && Hex(v, n, upper)[i] != 0
  {
    if i < n - 1 {
      HexIsDigits(v / 16, n - 1, upper, i);
    }
  }

  /** Reading digits in front of more digits. */
  lemma {:induction false} ReadThen(a: seq<Byte>, b: seq<Byte>, acc: nat)
    requires forall i :: 0 <= i < |a| ==> 0 <= Digit(a[i]) < 16
    ensures Read(a + b, 16, acc) == Read(b, 16, Read(a, 16, acc))
  {
    if a == [] {
      assert a + b == b;
    } else {
      assert (a + b)[0] == a[0] && (a + b)[1..] == a[1..] + b;
      ReadThen(a[1..], b, (acc * 16 + Digit(a[0])) % WORD);
    }
  }

  lemma {:induction false} ReadHex(v: nat, n: nat, upper: bool)
    requires v < Pow16(n) && v < WORD
    ensures Read(Hex(v, n, upper), 16, 0) == v
  {
    if n > 0 {
      var a, d := Hex(v / 16, n - 1, upper), HexDigit(v % 16, upper);
      ReadHex(v / 16, n - 1, upper);
      forall i | 0 <= i < |a| ensures 0 <= Digit(a[i]) < 16 { HexIsDigits(v / 16, n - 1, upper, i); }
      ReadThen(a, [d], 0);
      ReadLast(d, v / 16, v);
    }
  }

  lemma ReadLast(d: Byte, acc: nat, v: nat)
    requires Digit(d) == v % 16 && acc == v / 16 && v < WORD
    ensures Read([d], 16, acc) == v
  {
    var rest := [d][1..];
    assert rest == [];
    assert Read(rest, 16, v) == v;
    assert acc * 16 + Digit(d) == v;
  }

  /** parse_hex undoes the printing of any 32-bit number. */
  lemma ParseHexExact(v: nat, upper: bool)
    requires v < 0x1_0000_0000
    ensures Strtoull(Hex(v, 8, upper), 16) == v && 0 !in Hex(v, 8, upper)
  {
    var s := Hex(v, 8, upper);
    HexIsDigits(v, 8, upper, 0);
    HexIsDigits(v, 8, upper, 1);
    forall i | 0 <= i < |s| ensures s[i] != 0 { HexIsDigits(v, 8, upper, i); }
    Pow16Eight();
    ReadHex(v, 8, upper);
  }

  lemma Pow16Eight()
    ensures Pow16(8) == 0x1_0000_0000
  {
    assert Pow16(2) == 256;
    assert Pow16(4) == 65536;
    assert Pow16(6) == 0x100_0000;
  }

  // ---- the archive

  const HEADER := 110
  const FIELDS := 13

  /** The fields in header order: ino, mode, uid, gid, nlink, mtime, filesize, devmajor, devminor, rdevmajor, rdevminor,
      namesize, check. */
  const FILESIZE := 6
  const NAMESIZE := 11

  function Magic(crc: bool): seq<Byte> {
    [48, 55, 48, 55, 48, if crc then 50 else 49]
  }

  /** "TRAILER!!!", without the NUL byte. */
  function Trailer(): (s: seq<Byte>)
    ensures |s| == 10
  {
    [84, 82, 65, 73, 76, 69, 82, 33, 33, 33]
  }

  /** What the reader records of an entry: its numbers, and where its name and its contents are. */
  datatype Raw = Raw(fields: seq<nat>, name: nat, data: nat)

  datatype Outcome = Bad | Last(pos: nat) | Item(entry: Raw, pos: nat)

  function Align4(x: nat): (r: nat)
    ensures x <= r < x + 4 && r % 4 == 0
  {
    (x + 3) / 4 * 4
  }

  /** An offset rounded up to a 4-byte boundary of memory. */
  function AlignAt(base: nat, pos: nat): (r: nat)
    ensures pos <= r < pos + 4 && (base + r) % 4 == 0
  {
    Align4(base + pos) - base
  }

  /** The distance to the end as the reader computes it, in 64 bits: huge once the end has been passed. */
  function Rest(size: nat, pos: nat): nat {
    (size - pos) % WORD
  }

  function Slice(buf: seq<Byte>, from: nat, n: nat): (s: seq<Byte>)
    requires from + n <= |buf|
    ensures |s| == n
  {
    buf[from..from + n]
  }

  /** The field is copied behind a NUL byte's reach before it is parsed. */
  function UpToNul(s: seq<Byte>): (r: seq<Byte>)
    ensures 0 !in r
  {
    if s == [] || s[0] == 0 then [] else [s[0]] + UpToNul(s[1..])
  }

  function FieldsAt(buf: seq<Byte>, pos: nat): (fs: seq<nat>)
    requires pos + HEADER <= |buf|
    ensures |fs| == FIELDS && forall k :: 0 <= k < FIELDS ==>
      fs[k] == Strtoull(UpToNul(Slice(buf, pos + 6 + 8 * k, 8)), 16)
  {
    seq(FIELDS, k requires 0 <= k < FIELDS => Strtoull(UpToNul(Slice(buf, pos + 6 + 8 * k, 8)), 16))
  }

  predicate IsTrailer(buf: seq<Byte>, pos: nat) {
    pos + 11 <= |buf| && Slice(buf, pos, 11) == Trailer() + [0]
  }

  /** cpio_reader_next as a function of the bytes and the position. */
  function Next(buf: seq<Byte>, base: nat, pos: nat): Outcome
    requires pos < |buf|
  {
    if |buf| - pos < HEADER then Bad
    else if Slice(buf, pos, 6) != Magic(false) && Slice(buf, pos, 6) != Magic(true) then Bad
    else
      var fs := FieldsAt(buf, pos);
      var name := pos + HEADER;
      if |buf| - name < fs[NAMESIZE] then Bad
      else if buf[name + fs[NAMESIZE] - 1] != 0 then Bad
      else
        var data := AlignAt(base, name + fs[NAMESIZE]);
        if IsTrailer(buf, name) then Last(data)
        else if Rest(|buf|, data) < fs[FILESIZE] then Bad
        else Item(Raw(fs, name, data), AlignAt(base, data + fs[FILESIZE]))
  }

  datatype Parsed = Failed | Entries(entries: seq<Raw>)

  /** The read position strictly advances. */
  lemma NextAdvances(buf: seq<Byte>, base: nat, pos: nat)
    requires pos < |buf| && Next(buf, base, pos).Item?
    ensures Next(buf, base, pos).pos >= pos + HEADER
  {
  }

  function ParseFrom(buf: seq<Byte>, base: nat, pos: nat): Parsed
    decreases |buf| - pos
  {
    if pos >= |buf| then Entries([])
    else
      match Next(buf, base, pos)
      case Bad => Failed
      case Last(_) => Entries([])
      case Item(e, pos') =>
        NextAdvances(buf, base, pos);
        var rest := ParseFrom(buf, base, pos');
        if rest.Failed? then Failed else Entries([e] + rest.entries)
  }

  class Reader {
    const buf: seq<Byte>
    /** The address of the first byte. */
    const base: nat
    var pos: nat

    constructor (buf: seq<Byte>, base: nat)
      ensures this.buf == buf && this.base == base && pos == 0
    {
      this.buf, this.base, pos := buf, base, 0;
    }

    method Field(at: nat) returns (v: nat)
      requires at + 8 <= |buf|
      ensures v == Strtoull(UpToNul(Slice(buf, at, 8)), 16)
    {
      v := ParseNumber(UpToNul(buf[at..at + 8]), 16);
    }

    method ReadFields() returns (fields: seq<nat>)
      requires pos + HEADER <= |buf|
      ensures fields == FieldsAt(buf, pos)
    {
      hide Slice, UpToNul, Strtoull;
      fields := [];
      ghost var all := FieldsAt(buf, pos);
      for k := 0 to FIELDS
        invariant |fields| == k && fields == all[..k]
      {
        var v := Field(pos + 6 + 8 * k);
        assert v == all[k];
        fields := fields + [v];
      }
    }

    /** cpio_reader_next */
    method ReadEntry() returns (r: Outcome)
      requires pos < |buf|
      modifies this`pos
      ensures r == Next(buf, base, old(pos)) && (!r.Bad? ==> pos == r.pos)
    {
      hide FieldsAt, IsTrailer, AlignAt, Rest, Magic;
      if |buf| - pos < HEADER {
        return Bad;
      }
      if buf[pos..pos + 6] != Magic(false) && buf[pos..pos + 6] != Magic(true) {
        return Bad;
      }
      var fields := ReadFields();
      pos := pos + HEADER;
      if |buf| - pos < fields[NAMESIZE] {
        return Bad;
      }
      var name := pos;
      pos := pos + fields[NAMESIZE];
      pos := AlignAt(base, pos);
      if buf[name + fields[NAMESIZE] - 1] != 0 {
        return Bad;
      }
      if IsTrailer(buf, name) {
        return Last(pos);
      }
      if Rest(|buf|, pos) < fields[FILESIZE] {
        return Bad;
      }
      var data := pos;
      pos := pos + fields[FILESIZE];
      pos := AlignAt(base, pos);
      r := Item(Raw(fields, name, data), pos);
    }
  }

  /** cpio_archive_parse */
  method Parse(buf: seq<Byte>, base: nat) returns (r: Parsed)
    ensures r == if buf == [] then Failed else ParseFrom(buf, base, 0)
  {
    if buf == [] {
      return Failed;
    }
    var reader := new Reader(buf, base);
    var entries: seq<Raw> := [];
    while reader.pos < |buf|
      invariant reader.buf == buf && reader.base == base
      invariant Joined(entries, ParseFrom(buf, base, reader.pos)) == ParseFrom(buf, base, 0)
      decreases |buf| - reader.pos
    {
      ghost var pos := reader.pos;
      var next := reader.ReadEntry();
      match next {
        case Bad => return Failed;
        case Last(_) => break;
        case Item(e, _) =>
          NextAdvances(buf, base, pos);
          JoinedStep(entries, e, ParseFrom(buf, base, reader.pos));
          entries := entries + [e];
      }
    }
    assert entries + [] == entries;
    r := Entries(entries);
  }

  function Joined(entries: seq<Raw>, rest: Parsed): Parsed {
    if rest.Failed? then Failed else Entries(entries + rest.entries)
  }

  lemma JoinedStep(entries: seq<Raw>, e: Raw, rest: Parsed)
    ensures Joined(entries + [e], rest) == Joined(entries, if rest.Failed? then Failed else Entries([e] + rest.entries))
  {
    if rest.Entries? {
      assert entries + [e] + rest.entries == entries + ([e] + rest.entries);
    }
  }

  // ---- printing archives

  datatype Entry = Entry(numbers: seq<nat>, name: seq<Byte>, data: seq<Byte>, crc: bool, upper: bool)

  predicate Numbers(fs: seq<nat>) {
    |fs| == FIELDS && forall k :: 0 <= k < FIELDS ==> fs[k] < 0x1_0000_0000
  }

  /** An entry that can be printed: 32-bit numbers with the right sizes among them, and a name that is a string and
      not the name of the end marker. */
  predicate Legal(e: Entry) {
    && Numbers(e.numbers) && e.numbers[FILESIZE] == |e.data| && e.numbers[NAMESIZE] == |e.name| + 1
    && 0 !in e.name && e.name != Trailer()
  }

  function HexAll(fs: seq<nat>, upper: bool): (s: seq<Byte>)
    ensures |s| == 8 * |fs|
  {
    if fs == [] then [] else Hex(fs[0], 8, upper) + HexAll(fs[1..], upper)
  }

  function Zeros(n: nat): (s: seq<Byte>)
    ensures |s| == n
  {
    seq(n, i => 0)
  }

  function Padded(s: seq<Byte>): (r: seq<Byte>)
    ensures |r| == Align4(|s|) && s <= r
  {
    s + Zeros(Align4(|s|) - |s|)
  }

  function Head(e: Entry): (s: seq<Byte>)
    requires Numbers(e.numbers)
    ensures |s| == HEADER + |e.name| + 1
  {
    Magic(e.crc) + HexAll(e.numbers, e.upper) + e.name + [0]
  }

  function Bytes(e: Entry): (s: seq<Byte>)
    requires Numbers(e.numbers)
    ensures |s| == Align4(HEADER + |e.name| + 1) + Align4(|e.data|)
  {
    Padded(Head(e)) + Padded(e.data)
  }

  predicate EndMarker(e: Entry) {
    Numbers(e.numbers) && e.name == Trailer() && e.numbers[NAMESIZE] == 11
  }

  /** The entries one after the other, the end marker, and anything at all behind it. */
  function Archive(es: seq<Entry>, last: Entry, tail: seq<Byte>): seq<Byte>
    requires EndMarker(last) && forall i :: 0 <= i < |es| ==> Legal(es[i])
  {
    if es == [] then Head(last) + tail else assert Legal(es[0]); Bytes(es[0]) + Archive(es[1..], last, tail)
  }

  lemma {:induction false} HexAllAt(fs: seq<nat>, upper: bool, k: nat)
    requires k < |fs|
    ensures HexAll(fs, upper)[8 * k..8 * k + 8] == Hex(fs[k], 8, upper)
  {
    var a, b := Hex(fs[0], 8, upper), HexAll(fs[1..], upper);
    if k > 0 {
      HexAllAt(fs[1..], upper, k - 1);
      assert (a + b)[8 * k..8 * k + 8] == b[8 * (k - 1)..8 * (k - 1) + 8];
    }
  }

  lemma {:induction false} NoNul(s: seq<Byte>)
    requires 0 !in s
    ensures UpToNul(s) == s
  {
    if s != [] {
      assert s[0] in s;
      NoNul(s[1..]);
    }
  }

  /** A part of a part. */
  lemma SliceOfSlice(buf: seq<Byte>, o: nat, s: seq<Byte>, i: nat, n: nat)
    requires o + |s| <= |buf| && Slice(buf, o, |s|) == s && i + n <= |s|
    ensures Slice(buf, o + i, n) == s[i..i + n]
  {
    assert forall j :: 0 <= j < |s| ==> buf[o + j] == s[j];
  }

  /** What a printed head looks like to the reader. */
  lemma HeadParts(e: Entry)
    requires Numbers(e.numbers)
    ensures var s := Head(e); s[0..6] == Magic(e.crc) && s[HEADER..HEADER + |e.name| + 1] == e.name + [0]
    ensures forall k :: 0 <= k < FIELDS ==> Head(e)[6 + 8 * k..6 + 8 * k + 8] == Hex(e.numbers[k], 8, e.upper)
  {
    var s, m, h := Head(e), Magic(e.crc), HexAll(e.numbers, e.upper);
    assert s == m + h + (e.name + [0]);
    forall k | 0 <= k < FIELDS ensures s[6 + 8 * k..6 + 8 * k + 8] == Hex(e.numbers[k], 8, e.upper) {
      HexAllAt(e.numbers, e.upper, k);
      assert s[6 + 8 * k..6 + 8 * k + 8] == h[8 * k..8 * k + 8];
    }
  }

  /** The reader sees the numbers that were printed. */
  lemma HeadRead(buf: seq<Byte>, o: nat, e: Entry)
    requires Numbers(e.numbers) && o + |Head(e)| <= |buf| && Slice(buf, o, |Head(e)|) == Head(e)
    ensures Slice(buf, o, 6) == Magic(e.crc) && FieldsAt(buf, o) == e.numbers
    ensures Slice(buf, o + HEADER, |e.name| + 1) == e.name + [0]
  {
    hide Head, FieldsAt, Slice;
    var s := Head(e);
    HeadParts(e);
    SliceOfSlice(buf, o, s, 0, 6);
    SliceOfSlice(buf, o, s, HEADER, |e.name| + 1);
    var fs := FieldsAt(buf, o);
    forall k | 0 <= k < FIELDS ensures fs[k] == e.numbers[k] {
      SliceOfSlice(buf, o, s, 6 + 8 * k, 8);
      ParseHexExact(e.numbers[k], e.upper);
      NoNul(Hex(e.numbers[k], 8, e.upper));
    }
  }

  // ---- parsing undoes printing

  /** What was recorded is what was printed. */
  predicate Faithful(buf: seq<Byte>, r: Raw, e: Entry) {
    && r.fields == e.numbers
    && r.name + |e.name| + 1 <= |buf| && Slice(buf, r.name, |e.name| + 1) == e.name + [0]
    && r.data + |e.data| <= |buf| && Slice(buf, r.data, |e.data|) == e.data
  }

  /** The name of a legal entry does not read as the end marker. */
  lemma NotTrailer(buf: seq<Byte>, pos: nat, name: seq<Byte>)
    requires pos + |name| + 1 <= |buf| && Slice(buf, pos, |name| + 1) == name + [0] && 0 !in name
    ensures IsTrailer(buf, pos) <==> name == Trailer()
  {
    TrailerClean();
    if IsTrailer(buf, pos) {
      SameString(buf[pos..], name, Trailer());
    }
  }

  /** Two strings that both end with the first NUL byte are the same. */
  lemma SameString(w: seq<Byte>, s: seq<Byte>, t: seq<Byte>)
    requires |s| < |w| && |t| < |w| && w[..|s| + 1] == s + [0] && w[..|t| + 1] == t + [0] && 0 !in s && 0 !in t
    ensures s == t
  {
    var m, n := |s|, |t|;
    assert w[m] == (s + [0])[m] == 0;
    assert w[n] == (t + [0])[n] == 0;
    assert s == w[..m + 1][..m] == w[..m];
    assert t == w[..n + 1][..n] == w[..n];
    var x, y := w[m], w[n];
    assert m < n ==> x in t;
    assert n < m ==> y in s;
  }

  lemma AlignedOffset(base: nat, o: nat, n: nat)
    requires base % 4 == 0 && o % 4 == 0
    ensures AlignAt(base, o + n) == o + Align4(n)
  {
  }

  /** One printed entry, wherever it stands, is read back as it was. */
  lemma EntryRead(buf: seq<Byte>, base: nat, o: nat, e: Entry)
    requires Legal(e) && base % 4 == 0 && o % 4 == 0 && |buf| < WORD
    requires o + |Bytes(e)| <= |buf| && Slice(buf, o, |Bytes(e)|) == Bytes(e)
    ensures o < |buf| && Next(buf, base, o).Item? && Next(buf, base, o).pos == o + |Bytes(e)|
    ensures Faithful(buf, Next(buf, base, o).entry, e)
  {
    hide Head, FieldsAt, Slice, IsTrailer, AlignAt, Align4, Bytes, Padded, Magic;
    BytesParts(e);
    var h, n := |Head(e)|, Align4(|Head(e)|);
    SliceOfSlice(buf, o, Bytes(e), 0, h);
    SliceOfSlice(buf, o, Bytes(e), n, |e.data|);
    HeadRead(buf, o, e);
    NotTrailer(buf, o + HEADER, e.name);
    LastByte(buf, o + HEADER, e.name);
    AlignedOffset(base, o, h);
    AlignedOffset(base, o + n, |e.data|);
    assert Rest(|buf|, o + n) == |buf| - (o + n);
    MagicIs(e.crc);
  }

  lemma MagicIs(crc: bool)
    ensures Magic(crc) == Magic(false) || Magic(crc) == Magic(true)
  {
  }

  lemma LastByte(buf: seq<Byte>, pos: nat, name: seq<Byte>)
    requires pos + |name| + 1 <= |buf| && Slice(buf, pos, |name| + 1) == name + [0]
    ensures buf[pos + |name|] == 0
  {
    assert Slice(buf, pos, |name| + 1)[|name|] == 0;
  }

  lemma BytesParts(e: Entry)
    requires Numbers(e.numbers)
    ensures var s, h, n := Bytes(e), |Head(e)|, Align4(|Head(e)|);
      && h <= n && n % 4 == 0 && |s| == n + Align4(|e.data|) && |s| % 4 == 0 && n + |e.data| <= |s|
      && s[0..h] == Head(e) && s[n..n + |e.data|] == e.data
  {
    hide Head, Padded;
    PaddedIs(Head(e));
    PaddedIs(e.data);
    BothParts(Padded(Head(e)), Padded(e.data), |Head(e)|, |e.data|);
  }

  lemma PaddedIs(s: seq<Byte>)
    ensures |Padded(s)| == Align4(|s|) && Padded(s)[..|s|] == s
  {
  }

  lemma BothParts(a: seq<Byte>, b: seq<Byte>, h: nat, d: nat)
    requires h <= |a| && d <= |b|
    ensures (a + b)[0..h] == a[..h] && (a + b)[|a|..|a| + d] == b[..d]
  {
  }

  /** The end marker, wherever it stands, ends the archive. */
  lemma EndRead(buf: seq<Byte>, base: nat, o: nat, last: Entry)
    requires EndMarker(last) && o + |Head(last)| <= |buf| && Slice(buf, o, |Head(last)|) == Head(last)
    ensures o < |buf| && Next(buf, base, o).Last?
  {
    hide Head, FieldsAt, Slice, IsTrailer, AlignAt, Magic;
    HeadRead(buf, o, last);
    TrailerClean();
    NotTrailer(buf, o + HEADER, last.name);
    LastByte(buf, o + HEADER, last.name);
    MagicIs(last.crc);
  }

  lemma TrailerClean()
    ensures 0 !in Trailer()
  {
  }

  lemma {:induction false} RoundTripFrom(buf: seq<Byte>, base: nat, o: nat, es: seq<Entry>, last: Entry,
                                         tail: seq<Byte>)
    requires EndMarker(last) && (forall i :: 0 <= i < |es| ==> Legal(es[i])) && |buf| < WORD
    requires base % 4 == 0 && o % 4 == 0 && o <= |buf| && buf[o..] == Archive(es, last, tail)
    ensures var r := ParseFrom(buf, base, o); r.Entries? && |r.entries| == |es|
    ensures forall i :: 0 <= i < |es| ==> Faithful(buf, ParseFrom(buf, base, o).entries[i], es[i])
    decreases |es|
  {
    hide Head, Bytes, Next, Faithful, Numbers;
    if es == [] {
      PrefixSlice(buf, o, Head(last), tail);
      EndRead(buf, base, o, last);
    } else {
      var s := Bytes(es[0]);
      var rest := Archive(es[1..], last, tail);
      PrefixSlice(buf, o, s, rest);
      EntryRead(buf, base, o, es[0]);
      BytesParts(es[0]);
      RoundTripFrom(buf, base, o + |s|, es[1..], last, tail);
      RoundTripStep(buf, base, o, es);
    }
  }

  lemma RoundTripStep(buf: seq<Byte>, base: nat, o: nat, es: seq<Entry>)
    requires es != [] && o < |buf| && Next(buf, base, o).Item? && Faithful(buf, Next(buf, base, o).entry, es[0])
    requires var r := ParseFrom(buf, base, Next(buf, base, o).pos);
      r.Entries? && |r.entries| == |es| - 1 && forall i :: 0 <= i < |es| - 1 ==> Faithful(buf, r.entries[i], es[1..][i])
    ensures var r := ParseFrom(buf, base, o); r.Entries? && |r.entries| == |es|
    ensures forall i :: 0 <= i < |es| ==> Faithful(buf, ParseFrom(buf, base, o).entries[i], es[i])
  {
    hide Next, Faithful;
    var r, q := ParseFrom(buf, base, o), ParseFrom(buf, base, Next(buf, base, o).pos);
    assert r.entries == [Next(buf, base, o).entry] + q.entries;
    forall i | 0 <= i < |es| ensures Faithful(buf, r.entries[i], es[i]) {
      if i > 0 { assert Faithful(buf, q.entries[i-1], es[1..][i-1]); }
    }
  }

  lemma PrefixSlice(buf: seq<Byte>, o: nat, s: seq<Byte>, rest: seq<Byte>)
    requires o <= |buf| && buf[o..] == s + rest
    ensures o + |s| <= |buf| && Slice(buf, o, |s|) == s && buf[o + |s|..] == rest
  {
    assert |buf| == o + |s| + |rest|;
    assert buf[o..][..|s|] == s;
    assert buf[o..][|s|..] == rest;
  }

  /** Any list of legal entries, printed with an end marker at a 4-byte boundary, is read back as exactly that list. */
  lemma RoundTrip(es: seq<Entry>, last: Entry, tail: seq<Byte>, base: nat)
    requires EndMarker(last) && (forall i :: 0 <= i < |es| ==> Legal(es[i])) && base % 4 == 0
    requires |Archive(es, last, tail)| < WORD
    ensures var buf := Archive(es, last, tail); var r := ParseFrom(buf, base, 0);
      r.Entries? && |r.entries| == |es| && forall i :: 0 <= i < |es| ==> Faithful(buf, r.entries[i], es[i])
  {
    hide Faithful, Numbers, ParseFrom;
    var buf := Archive(es, last, tail);
    assert buf[0..] == buf;
    RoundTripFrom(buf, base, 0, es, last, tail);
  }

  // ---- whether what was recorded lies inside the archive

  predicate Recorded(r: Raw) {
    |r.fields| == FIELDS
  }

  /** The contents of the entry lie inside the archive. */
  predicate Inside(buf: seq<Byte>, r: Raw) {
    Recorded(r) && r.data + r.fields[FILESIZE] <= |buf|
  }

  /** The name always lies inside the archive. The contents do exactly when rounding up the end of the name has not
      passed the end of the archive: past it, the distance to the end wraps around and the size test lets everything
      through. */
  lemma ContentsInsideExact(buf: seq<Byte>, base: nat, pos: nat)
    requires pos < |buf| < WORD && Next(buf, base, pos).Item?
    ensures var e := Next(buf, base, pos).entry;
      && Recorded(e) && e.name + e.fields[NAMESIZE] <= |buf| && e.data == AlignAt(base, e.name + e.fields[NAMESIZE])
      && (Inside(buf, e) <==> e.data <= |buf|) && ((base + |buf|) % 4 == 0 ==> Inside(buf, e))
  {
    hide FieldsAt, Slice, IsTrailer;
    var e := Next(buf, base, pos).entry;
    if (base + |buf|) % 4 == 0 {
      AlignedEnd(base, e.name + e.fields[NAMESIZE], |buf|);
    }
    if e.data <= |buf| {
      assert Rest(|buf|, e.data) == |buf| - e.data;
    }
  }

  /** Rounding up does not pass a boundary. */
  lemma AlignedEnd(base: nat, x: nat, end: nat)
    requires x <= end && (base + end) % 4 == 0
    ensures AlignAt(base, x) <= end
  {
  }

  ghost predicate AllInside(buf: seq<Byte>, p: Parsed) {
    p.Entries? ==> forall i :: 0 <= i < |p.entries| ==> Inside(buf, p.entries[i])
  }

  /** The same for everything that is read. */
  lemma {:induction false} ParsedInsideExact(buf: seq<Byte>, base: nat, pos: nat)
    requires |buf| < WORD
    ensures var p := ParseFrom(buf, base, pos);
      p.Entries? ==> forall i :: 0 <= i < |p.entries| ==>
        Recorded(p.entries[i]) && (Inside(buf, p.entries[i]) <==> p.entries[i].data <= |buf|)
    ensures (base + |buf|) % 4 == 0 ==> AllInside(buf, ParseFrom(buf, base, pos))
    decreases |buf| - pos
  {
    hide Next, Inside, Recorded;
    if pos < |buf| && Next(buf, base, pos).Item? {
      NextAdvances(buf, base, pos);
      ContentsInsideExact(buf, base, pos);
      ParsedInsideExact(buf, base, Next(buf, base, pos).pos);
    }
  }

  // ---- archives that are read beyond their end

  /** The fields of an entry with a name of `namesize` bytes and contents of `filesize`. */
  function RecordFields(namesize: nat, filesize: nat): (fs: seq<nat>)
    requires namesize < WORD32 && filesize < WORD32
    ensures Numbers(fs) && fs[NAMESIZE] == namesize && fs[FILESIZE] == filesize
  {
    [0, 0, 0, 0, 0, 0, filesize, 0, 0, 0, 0, namesize, 0]
  }

  /** `n` bytes that are one header and a name of NUL bytes; the last byte of the header is a NUL byte too. */
  function Record(n: nat, filesize: nat): (buf: seq<Byte>)
    requires HEADER <= n < WORD32 && filesize < WORD32
    ensures |buf| == n
  {
    Magic(false) + HexAll(RecordFields(n - HEADER, filesize), false)[..103] + Zeros(n - 109)
  }

  lemma RecordHex(n: nat, filesize: nat, k: nat)
    requires HEADER <= n < WORD32 && filesize < WORD32 && k < 12
    ensures Record(n, filesize)[6 + 8 * k..6 + 8 * k + 8] == Hex(RecordFields(n - HEADER, filesize)[k], 8, false)
  {
    var fs := RecordFields(n - HEADER, filesize);
    HexAllAt(fs, false, k);
    hide HexAll, Hex, Zeros, Magic, RecordFields;
    MiddlePart(Magic(false), HexAll(fs, false), Zeros(n - 109), 8 * k);
  }

  lemma MiddlePart(a: seq<Byte>, h: seq<Byte>, z: seq<Byte>, i: nat)
    requires |a| == 6 && |h| == 104 && i + 8 <= 103
    ensures |a + h[..103] + z| >= 109 && (a + h[..103] + z)[6 + i..6 + i + 8] == h[i..i + 8]
  {
  }

  lemma RecordField(buf: seq<Byte>, o: nat, n: nat, filesize: nat, k: nat)
    requires HEADER <= n < WORD32 && filesize < WORD32 && k < 12
    requires o + n <= |buf| && Slice(buf, o, n) == Record(n, filesize)
    ensures FieldsAt(buf, o)[k] == RecordFields(n - HEADER, filesize)[k]
  {
    hide Record, Strtoull, UpToNul, Hex, Slice;
    var v := RecordFields(n - HEADER, filesize)[k];
    RecordHex(n, filesize, k);
    SliceOfSlice(buf, o, Record(n, filesize), 6 + 8 * k, 8);
    ParseHexExact(v, false);
    NoNulHex(v);
    assert o + (6 + 8 * k) == o + 6 + 8 * k;
    assert FieldsAt(buf, o)[k] == Strtoull(UpToNul(Slice(buf, o + 6 + 8 * k, 8)), 16);
  }

  lemma NoNulHex(v: nat)
    requires v < WORD32
    ensures UpToNul(Hex(v, 8, false)) == Hex(v, 8, false)
  {
    ParseHexExact(v, false);
    NoNul(Hex(v, 8, false));
  }

  lemma RecordShape(n: nat, filesize: nat)
    requires HEADER <= n < WORD32 && filesize < WORD32
    ensures |Record(n, filesize)| == n && Record(n, filesize)[..6] == Magic(false) && Record(n, filesize)[n - 1] == 0
    ensures HEADER < n ==> Record(n, filesize)[HEADER] == 0
  {
  }

  lemma RecordBytes(buf: seq<Byte>, o: nat, n: nat, filesize: nat)
    requires HEADER <= n < WORD32 && filesize < WORD32 && (HEADER < n || o + n == |buf|)
    requires o + n <= |buf| && Slice(buf, o, n) == Record(n, filesize)
    ensures Slice(buf, o, 6) == Magic(false) && buf[o + n - 1] == 0 && !IsTrailer(buf, o + HEADER)
  {
    hide Record, Magic;
    RecordShape(n, filesize);
    assert Slice(buf, o, 6) == Slice(buf, o, n)[..6];
    assert Slice(buf, o, n)[n - 1] == buf[o + n - 1];
    if HEADER < n && o + HEADER + 11 <= |buf| {
      assert Slice(buf, o + HEADER, 11)[0] == Slice(buf, o, n)[HEADER] == 0 && (Trailer() + [0])[0] == 84;
    }
  }

  /** How a record is read: its contents begin behind its name, rounded up, and are accepted once that is behind the
      end of the archive. */
  lemma RecordRead(buf: seq<Byte>, base: nat, o: nat, n: nat, filesize: nat)
    requires HEADER <= n < WORD32 && filesize < WORD32 && (HEADER < n || o + n == |buf|) && |buf| < WORD
    requires o + n <= |buf| && Slice(buf, o, n) == Record(n, filesize)
    requires filesize == 0 || AlignAt(base, o + n) > |buf|
    ensures var r, data := Next(buf, base, o), AlignAt(base, o + n);
      r.Item? && r.entry.data == data && r.pos == AlignAt(base, data + filesize)
  {
    hide FieldsAt, Slice, IsTrailer, Record, Magic, RecordFields;
    RecordBytes(buf, o, n, filesize);
    RecordField(buf, o, n, filesize, FILESIZE);
    RecordField(buf, o, n, filesize, NAMESIZE);
    var data := AlignAt(base, o + n);
    if data > |buf| {
      assert Rest(|buf|, data) == |buf| - data + WORD;
    }
  }

  /** A record that begins at an address and ends on a 4-byte boundary. */
  function FillerSize(at: nat): (n: nat)
    ensures HEADER < n <= 0x8000_0000 && (at + n) % 4 == 0
  {
    0x8000_0000 - at % 4
  }

  /** `n` bytes for an address: records without contents, and a last one that claims almost 4 GiB. */
  function Greedy(at: nat, n: nat): (buf: seq<Byte>)
    requires HEADER <= n
    ensures |buf| == n
    decreases n
  {
    if n < WORD32 then Record(n, WORD32 - 1)
    else Record(FillerSize(at), 0) + Greedy(at + FillerSize(at), n - FillerSize(at))
  }

  lemma GreedySplit(buf: seq<Byte>, o: nat, at: nat, n: nat)
    requires WORD32 <= n && o + n == |buf| && Slice(buf, o, n) == Greedy(at, n)
    ensures var k := FillerSize(at);
      Slice(buf, o, k) == Record(k, 0) && Slice(buf, o + k, n - k) == Greedy(at + k, n - k)
  {
    hide Record;
    var k := FillerSize(at);
    assert Slice(buf, o, k) == Slice(buf, o, n)[..k] && Slice(buf, o + k, n - k) == Slice(buf, o, n)[k..];
  }

  lemma GreedyLast(at: nat, n: nat)
    requires HEADER <= n < WORD32
    ensures Greedy(at, n) == Record(n, WORD32 - 1)
  {
  }

  lemma ParseStep(buf: seq<Byte>, base: nat, o: nat)
    requires o < |buf| && Next(buf, base, o).Item?
    ensures var r := Next(buf, base, o);
      var rest := ParseFrom(buf, base, r.pos);
      rest.Entries? ==> ParseFrom(buf, base, o) == Entries([r.entry] + rest.entries)
  {
    NextAdvances(buf, base, o);
  }

  lemma ParseEnd(buf: seq<Byte>, base: nat, o: nat)
    requires o >= |buf|
    ensures ParseFrom(buf, base, o) == Entries([])
  {
  }

  /** The reader accepts it and records contents that start behind its end. */
  lemma {:induction false} GreedyRead(buf: seq<Byte>, base: nat, o: nat, n: nat)
    requires HEADER <= n && o + n == |buf| < WORD && (base + |buf|) % 4 != 0
    requires Slice(buf, o, n) == Greedy(base + o, n)
    ensures var p := ParseFrom(buf, base, o);
      p.Entries? && p.entries != [] && p.entries[|p.entries|-1].data > |buf|
    decreases n
  {
    hide Next, ParseFrom, Record, Slice, Greedy, FillerSize, AlignAt;
    if n < WORD32 {
      GreedyLast(base + o, n);
      RecordRead(buf, base, o, n, WORD32 - 1);
      ParseStep(buf, base, o);
      ParseEnd(buf, base, Next(buf, base, o).pos);
    } else {
      var k := FillerSize(base + o);
      GreedySplit(buf, o, base + o, n);
      AlignedAlready(base, o + k);
      RecordRead(buf, base, o, k, 0);
      ParseStep(buf, base, o);
      GreedyRead(buf, base, o + k, n - k);
    }
  }

  lemma AlignedAlready(base: nat, x: nat)
    requires (base + x) % 4 == 0
    ensures AlignAt(base, x) == x
  {
  }

  /** An entry whose header begins with "070701" or "070702" and whose name lies in the archive and ends with a NUL. */
  ghost predicate Named(buf: seq<Byte>, e: Raw) {
    && 110 <= e.name <= |buf| && |e.fields| == 13 && e.name + e.fields[11] <= |buf|
    && buf[e.name - 110..e.name - 105] == [0x30, 0x37, 0x30, 0x37, 0x30] && buf[e.name - 105] in {0x31, 0x32}
    && buf[e.name + e.fields[11] - 1] == 0
  }

  lemma ItemNamed(buf: seq<Byte>, base: nat, pos: nat)
    requires pos < |buf| && Next(buf, base, pos).Item?
    ensures Named(buf, Next(buf, base, pos).entry)
  {
    hide Strtoull, UpToNul;
    var e := Next(buf, base, pos).entry;
    assert buf[pos..pos + 6][..5] == buf[pos..pos + 5] && buf[pos..pos + 6][5] == buf[pos + 5];
    assert Magic(false)[..5] == Magic(true)[..5] == [0x30, 0x37, 0x30, 0x37, 0x30];
  }

  /** Whatever the bytes, the reader records only such entries. */
  lemma {:induction false} AllNamed(buf: seq<Byte>, base: nat, pos: nat)
    ensures var p := ParseFrom(buf, base, pos);
      p.Entries? ==> forall i :: 0 <= i < |p.entries| ==> Named(buf, p.entries[i])
    decreases |buf| - pos
  {
    if pos < |buf| && Next(buf, base, pos).Item? {
      NextAdvances(buf, base, pos);
      ItemNamed(buf, base, pos);
      AllNamed(buf, base, Next(buf, base, pos).pos);
      hide Next, Named;
    }
  }

  /** Every archive of `n` bytes at `base` is read inside its bounds exactly when its end is a 4-byte boundary of
      memory or it is too short for a header. */
  lemma AlignedEndExact(base: nat, n: nat)
    requires n < WORD
    ensures (forall buf: seq<Byte> :: |buf| == n ==> AllInside(buf, ParseFrom(buf, base, 0)))
       <==> (base + n) % 4 == 0 || n < HEADER
  {
    hide Inside, Greedy;
    if (base + n) % 4 == 0 || n < HEADER {
      forall buf: seq<Byte> | |buf| == n ensures AllInside(buf, ParseFrom(buf, base, 0)) {
        ParsedInsideExact(buf, base, 0);
      }
    } else {
      var buf := Greedy(base, n);
      assert Slice(buf, 0, n) == buf;
      GreedyRead(buf, base, 0, n);
      ParsedInsideExact(buf, base, 0);
      assert |buf| == n && !AllInside(buf, ParseFrom(buf, base, 0));
    }
  }
}
