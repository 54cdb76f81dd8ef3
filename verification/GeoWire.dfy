/** The geosite file format (`internal/geo/geo.go`,
    `internal/geo/encode_test_helpers.go`): the protobuf wire reader the decoders
    are built on, the list splitter and record decoders, and the encoder. Wire
    rules are those of "Base 128 Varints" and "Message Structure" in the
    Protocol Buffers Encoding specification.

    A byte string is a string; a byte is a character below 256. */
module GeoWire {
  import opened Model
  import opened Domains
  import opened GeoEntry

  const UINT64: nat := 0x1_0000_0000_0000_0000
  const MAX_FIELD: nat := 0x7FFF_FFFF
  const RECURSION_LIMIT: nat := 10000

  const VARINT: nat := 0
  const FIXED64: nat := 1
  const BYTES: nat := 2
  const START_GROUP: nat := 3
  const END_GROUP: nat := 4
  const FIXED32: nat := 5

  // ----------------------------------------------------------- the wire reader

  /** A value and the bytes it took. */
  datatype Read<+T> = Read(value: T, size: nat)

  /** The k-th and later bytes of a varint: seven bits each, least significant
      first, at most ten bytes and at most 64 bits. */
  function VarintFrom(b: string, k: nat): (r: Option<Read<nat>>)
    ensures r.Some? ==> 1 <= r.value.size <= |b|
    decreases |b|
  {
    if b == "" then None
    else
      var x: nat := b[0] as int;
      if k >= 9 then if x < 2 then Some(Read(x, 1)) else None
      else if x < 128 then Some(Read(x, 1))
      else
        var rest := VarintFrom(b[1..], k + 1);
        if rest.None? then None
        else
          var v: nat := x - 128 + 128 * rest.value.value;
          Some(Read(v, 1 + rest.value.size))
  }

  function ConsumeVarint(b: string): (r: Option<Read<nat>>)
    ensures r.Some? ==> 1 <= r.value.size <= |b|
  {
    VarintFrom(b, 0)
  }

  datatype Tag = Tag(num: nat, typ: nat)

  function ConsumeTag(b: string): (r: Option<Read<Tag>>)
    ensures r.Some? ==> 1 <= r.value.size <= |b| && 1 <= r.value.value.num <= MAX_FIELD && r.value.value.typ < 8
  {
    var v := ConsumeVarint(b);
    if v.None? || v.value.value / 8 > MAX_FIELD || v.value.value / 8 < 1 then None
    else Some(Read(Tag(v.value.value / 8, v.value.value % 8), v.value.size))
  }

  function ConsumeBytes(b: string): (r: Option<Read<string>>)
    ensures r.Some? ==> r.value.size <= |b|
  {
    var n := ConsumeVarint(b);
    if n.None? || n.value.value > |b| - n.value.size then None
    else Some(Read(b[n.value.size..n.value.size + n.value.value], n.value.size + n.value.value))
  }

  function SizeOf<T>(r: Option<Read<T>>): Option<nat> { if r.None? then None else Some(r.value.size) }

  /** How many bytes a value takes that is not a group. */
  function SkipScalar(typ: nat, b: string): (r: Option<nat>)
    ensures r.Some? ==> r.value <= |b|
  {
    if typ == VARINT then SizeOf(ConsumeVarint(b))
    else if typ == FIXED64 then if |b| < 8 then None else Some(8)
    else if typ == FIXED32 then if |b| < 4 then None else Some(4)
    else if typ == BYTES then SizeOf(ConsumeBytes(b))
    else None
  }

  /** What follows the tag of a field inside a group: the groups then open, and
      the bytes left. */
  function InGroup(open: seq<nat>, t: Tag, after: string): (r: Option<(seq<nat>, nat)>)
    requires open != []
    ensures r.Some? ==> r.value.1 <= |after|
  {
    if t.typ == END_GROUP then if t.num == open[|open| - 1] then Some((open[..|open| - 1], 0)) else None
    else if t.typ == START_GROUP then if |open| > RECURSION_LIMIT then None else Some((open + [t.num], 0))
    else
      var n := SkipScalar(t.typ, after);
      if n.None? then None else Some((open, n.value))
  }

  function Plus(n: nat, m: Option<nat>): Option<nat> { if m.None? then None else Some(n + m.value) }

  /** Skip to the end of the outermost of the open groups, each closed by a
      marker with its own number. Nesting is limited. */
  function SkipGroups(open: seq<nat>, b: string): (r: Option<nat>)
    ensures r.Some? ==> r.value <= |b|
    decreases |b|
  {
    if open == [] then Some(0)
    else
      var t := ConsumeTag(b);
      if t.None? then None
      else
        var after := b[t.value.size..];
        var go := InGroup(open, t.value.value, after);
        if go.None? then None
        else Plus(t.value.size + go.value.1, SkipGroups(go.value.0, after[go.value.1..]))
  }

  /** `ConsumeFieldValue`. */
  function SkipValue(num: nat, typ: nat, b: string): (r: Option<nat>)
    ensures r.Some? ==> r.value <= |b|
  {
    if typ == START_GROUP then SkipGroups([num], b) else SkipScalar(typ, b)
  }

  // ------------------------------------------------------------- as messages

  datatype Field = Number(num: nat, value: nat) | Blob(num: nat, bytes: string) | Other(num: nat, typ: nat)

  /** The value after a tag. */
  function ValueOf(t: Tag, after: string): (r: Option<Read<Field>>)
    ensures r.Some? ==> r.value.size <= |after| && r.value.value.num == t.num
  {
    if t.typ == VARINT then
      var v := ConsumeVarint(after);
      if v.None? then None else Some(Read(Number(t.num, v.value.value), v.value.size))
    else if t.typ == BYTES then
      var v := ConsumeBytes(after);
      if v.None? then None else Some(Read(Blob(t.num, v.value.value), v.value.size))
    else
      var n := SkipValue(t.num, t.typ, after);
      if n.None? then None else Some(Read(Other(t.num, t.typ), n.value))
  }

  function Next(b: string): (r: Option<Read<Field>>)
    ensures r.Some? ==> 1 <= r.value.size <= |b|
  {
    var t := ConsumeTag(b);
    if t.None? then None
    else
      var v := ValueOf(t.value.value, b[t.value.size..]);
      if v.None? then None else Some(Read(v.value.value, t.value.size + v.value.size))
  }

  function Join(xs: seq<Field>, more: Option<seq<Field>>): Option<seq<Field>>
  {
    if more.None? then None else Some(xs + more.value)
  }

  /** A message as the list of its fields; None if it is malformed. */
  function Parse(b: string): Option<seq<Field>>
    decreases |b|
  {
    if b == "" then Some([])
    else
      var f := Next(b);
      if f.None? then None
      else Join([f.value.value], Parse(b[f.value.size..]))
  }

  // -------------------------------------- reading does not look past its value

  lemma {:induction false} VarintLocal(b: string, k: nat, s: string)
    requires VarintFrom(b, k).Some?
    ensures VarintFrom(b + s, k) == VarintFrom(b, k)
    decreases |b|
  {
    assert (b + s)[0] == b[0] && (b + s)[1..] == b[1..] + s;
    if k < 9 && b[0] as int >= 128 {
      VarintLocal(b[1..], k + 1, s);
    }
  }

  lemma TagLocal(b: string, s: string)
    requires ConsumeTag(b).Some?
    ensures ConsumeTag(b + s) == ConsumeTag(b)
  {
    VarintLocal(b, 0, s);
  }

  lemma BytesLocal(b: string, s: string)
    requires ConsumeBytes(b).Some?
    ensures ConsumeBytes(b + s) == ConsumeBytes(b)
  {
    VarintLocal(b, 0, s);
    var n := ConsumeVarint(b).value;
    assert (b + s)[n.size..n.size + n.value] == b[n.size..n.size + n.value];
  }

  lemma ScalarLocal(typ: nat, b: string, s: string)
    requires SkipScalar(typ, b).Some?
    ensures SkipScalar(typ, b + s) == SkipScalar(typ, b)
  {
    if typ == VARINT {
      VarintLocal(b, 0, s);
    } else if typ == BYTES {
      BytesLocal(b, s);
    }
  }

  lemma DropOfAppend(b: string, i: nat, s: string)
    requires i <= |b|
    ensures (b + s)[i..] == b[i..] + s
  {
  }

  lemma InGroupLocal(open: seq<nat>, t: Tag, after: string, s: string)
    requires open != [] && InGroup(open, t, after).Some?
    ensures InGroup(open, t, after + s) == InGroup(open, t, after)
  {
    if t.typ != END_GROUP && t.typ != START_GROUP {
      ScalarLocal(t.typ, after, s);
    }
  }

  lemma GroupsStep(open: seq<nat>, b: string, t: Read<Tag>, after: string, go: (seq<nat>, nat), rest: string)
    requires open != [] && ConsumeTag(b) == Some(t) && b[t.size..] == after
    requires InGroup(open, t.value, after) == Some(go) && rest == after[go.1..]
    ensures SkipGroups(open, b) == Plus(t.size + go.1, SkipGroups(go.0, rest))
  {
    var skipped := SkipGroups(go.0, rest);
    assert SkipGroups(open, b) == Plus(t.size + go.1, skipped);
  }

  lemma {:induction false} GroupsLocal(open: seq<nat>, b: string, s: string)
    requires SkipGroups(open, b).Some?
    ensures SkipGroups(open, b + s) == SkipGroups(open, b)
    decreases |b|
  {
    if open != [] {
      var t := ConsumeTag(b).value;
      var after := b[t.size..];
      var go := InGroup(open, t.value, after).value;
      InGroupLocal(open, t.value, after, s);
      GroupsLocal(go.0, after[go.1..], s);
      TagLocal(b, s);
      DropOfAppend(b, t.size, s);
      DropOfAppend(after, go.1, s);
      GroupsStep(open, b, t, after, go, after[go.1..]);
      GroupsStep(open, b + s, t, after + s, go, after[go.1..] + s);
    }
  }

  lemma ValueLocal(t: Tag, after: string, s: string)
    requires ValueOf(t, after).Some?
    ensures ValueOf(t, after + s) == ValueOf(t, after)
  {
    if t.typ == VARINT {
      VarintLocal(after, 0, s);
    } else if t.typ == BYTES {
      BytesLocal(after, s);
    } else if t.typ == START_GROUP {
      GroupsLocal([t.num], after, s);
    } else {
      ScalarLocal(t.typ, after, s);
    }
  }

  lemma NextLocal(b: string, s: string)
    requires Next(b).Some?
    ensures Next(b + s) == Next(b)
  {
    var t := ConsumeTag(b).value;
    ValueLocal(t.value, b[t.size..], s);
    TagLocal(b, s);
    DropOfAppend(b, t.size, s);
  }

  lemma ParseStep(b: string, f: Read<Field>)
    requires Next(b) == Some(f)
    ensures Parse(b) == Join([f.value], Parse(b[f.size..]))
  {
  }

  lemma ParsePast(p: string, s: string, f: Read<Field>)
    requires Next(p) == Some(f)
    ensures Parse(p + s) == Join([f.value], Parse(p[f.size..] + s))
  {
    NextLocal(p, s);
    DropOfAppend(p, f.size, s);
    ParseStep(p + s, f);
  }

  lemma JoinAssociates(xs: seq<Field>, ys: seq<Field>, more: Option<seq<Field>>)
    ensures Join(xs, Join(ys, more)) == Join(xs + ys, more)
  {
    if more.Some? {
      assert xs + (ys + more.value) == xs + ys + more.value;
    }
  }

  /** Messages concatenate: this is what makes repeated and unknown fields
      possible. */
  lemma {:induction false} ParseAppend(p: string, s: string)
    requires Parse(p).Some?
    ensures Parse(p + s) == Join(Parse(p).value, Parse(s))
    decreases |p|
  {
    if p == "" {
      assert p + s == s && Parse(p) == Some([]);
      assert Parse(s).Some? ==> [] + Parse(s).value == Parse(s).value;
    } else {
      var f := Next(p).value;
      ParseStep(p, f);
      ParseAppend(p[f.size..], s);
      ParsePast(p, s, f);
      JoinAssociates([f.value], Parse(p[f.size..]).value, Parse(s));
    }
  }

  lemma ParseOnly(b: string, f: Field)
    requires Next(b) == Some(Read(f, |b|))
    ensures Parse(b) == Some([f])
  {
    assert b[|b|..] == "" && Parse("") == Some([]);
    assert [f] + [] == [f];
  }

  // ----------------------------------------------------------------- encoding

  function EncVarint(v: nat): (r: string)
    ensures |r| >= 1
    decreases v
  {
    if v < 128 then [v as char] else [(v % 128 + 128) as char] + EncVarint(v / 128)
  }

  function EncTag(num: nat, typ: nat): string { EncVarint(num * 8 + typ) }

  function EncBytes(s: string): string { EncVarint(|s|) + s }

  function EncBlob(num: nat, s: string): (r: string)
    ensures |r| > |s|
  {
    EncTag(num, BYTES) + EncBytes(s)
  }

  /** Values a varint can still hold from its k-th byte on. */
  function Room(k: nat): nat
    requires k <= 9
  {
    [0x1_0000_0000_0000_0000, 0x200_0000_0000_0000, 0x4_0000_0000_0000, 0x800_0000_0000, 0x10_0000_0000,
     0x2000_0000, 0x40_0000, 0x8000, 0x100, 2][k]
  }

  lemma {:induction false} VarintRoundTrip(v: nat, k: nat)
    requires k <= 9 && v < Room(k)
    ensures VarintFrom(EncVarint(v), k) == Some(Read(v, |EncVarint(v)|))
    decreases 10 - k
  {
    if v >= 128 {
      assert k < 9 && v / 128 < Room(k + 1);
      VarintRoundTrip(v / 128, k + 1);
      assert EncVarint(v)[1..] == EncVarint(v / 128);
      assert v == v % 128 + 128 * (v / 128);
    }
  }

  lemma TagRoundTrip(num: nat, typ: nat, rest: string)
    requires 1 <= num <= MAX_FIELD && typ < 8
    ensures ConsumeTag(EncTag(num, typ) + rest) == Some(Read(Tag(num, typ), |EncTag(num, typ)|))
  {
    VarintRoundTrip(num * 8 + typ, 0);
    VarintLocal(EncTag(num, typ), 0, rest);
  }

  /** Field numbers go from 1 to 2^31 - 1. */
  lemma FieldNumbers(num: nat, typ: nat, rest: string)
    requires typ < 8 && num * 8 + typ < 0x1_0000_0000_0000_0000
    ensures ConsumeTag(EncVarint(num * 8 + typ) + rest) ==
      if 1 <= num <= 0x7FFF_FFFF then Some(Read(Tag(num, typ), |EncVarint(num * 8 + typ)|)) else None
  {
    var v := num * 8 + typ;
    VarintRoundTrip(v, 0);
    VarintLocal(EncVarint(v), 0, rest);
    assert v / 8 == num && v % 8 == typ;
  }

  lemma ParseBlob(num: nat, s: string)
    requires 1 <= num <= MAX_FIELD && |s| < UINT64
    ensures Parse(EncBlob(num, s)) == Some([Blob(num, s)])
  {
    var b := EncBlob(num, s);
    TagRoundTrip(num, BYTES, EncBytes(s));
    var after := b[|EncTag(num, BYTES)|..];
    assert after == EncBytes(s);
    VarintRoundTrip(|s|, 0);
    VarintLocal(EncVarint(|s|), 0, s);
    assert after[|EncVarint(|s|)|..] == s;
    assert after[|EncVarint(|s|)|..|EncVarint(|s|)| + |s|] == s;
    assert ConsumeBytes(after) == Some(Read(s, |after|));
    ParseOnly(b, Blob(num, s));
  }

  lemma ParseNumber(num: nat, v: nat)
    requires 1 <= num <= MAX_FIELD && v < UINT64
    ensures Parse(EncTag(num, VARINT) + EncVarint(v)) == Some([Number(num, v)])
  {
    var b := EncTag(num, VARINT) + EncVarint(v);
    TagRoundTrip(num, VARINT, EncVarint(v));
    assert b[|EncTag(num, VARINT)|..] == EncVarint(v);
    VarintRoundTrip(v, 0);
    ParseOnly(b, Number(num, v));
  }

  // ----------------------------------------------------------- decoded fields

  /** The first blob numbered want; "" if there is none. Later fields are not
      looked at, so a message malformed after it still has a value. */
  function StringField(b: string, want: nat): Option<string>
    decreases |b|
  {
    if b == "" then Some("")
    else
      var f := Next(b);
      if f.None? then None
      else if f.value.value.Blob? && f.value.value.num == want then Some(f.value.value.bytes)
      else StringField(b[f.value.size..], want)
  }

  function KindOf(v: nat): EntryKind
  {
    if v == 0 then KindPlain else if v == 1 then KindRegex else if v == 2 then KindRoot
    else if v == 3 then KindFull else KindUnknown
  }

  /** One field of a record; later kinds and values override. */
  function TakeDomain(e: Entry, f: Field): Entry
  {
    match f
    case Number(1, v) => e.(kind := KindOf(v))
    case Blob(2, v) => e.(value := Lower(v))
    case Blob(3, v) =>
      var key := StringField(v, 1);
      if key.Some? && key.value != "" then e.(attrs := e.attrs + [key.value]) else e
    case _ => e
  }

  function DomainFold(fs: seq<Field>): Entry
  {
    if fs == [] then Entry(KindPlain, "", []) else TakeDomain(DomainFold(fs[..|fs| - 1]), fs[|fs| - 1])
  }

  function DomainOf(b: string): Option<Entry>
  {
    if Parse(b).None? then None else Some(DomainFold(Parse(b).value))
  }

  /** One field of a site: a record with a value is kept. */
  function TakeEntry(es: Option<seq<Entry>>, f: Field): Option<seq<Entry>>
  {
    if es.None? || !f.Blob? || f.num != 2 then es
    else
      var e := DomainOf(f.bytes);
      if e.None? then None
      else if e.value.value == "" then es
      else Some(es.value + [e.value])
  }

  function SiteFold(fs: seq<Field>): Option<seq<Entry>>
  {
    if fs == [] then Some([]) else TakeEntry(SiteFold(fs[..|fs| - 1]), fs[|fs| - 1])
  }

  function SiteOf(b: string): Option<seq<Entry>>
  {
    if Parse(b).None? then None else SiteFold(Parse(b).value)
  }

  /** One field of the list: a site is indexed by its lower-cased tag. */
  function TakeSite(m: Option<map<string, string>>, f: Field): Option<map<string, string>>
  {
    if m.None? || !f.Blob? || f.num != 1 then m
    else
      var tag := StringField(f.bytes, 1);
      if tag.None? then None
      else if tag.value == "" then m
      else Some(m.value[Lower(tag.value) := f.bytes])
  }

  function ListFold(fs: seq<Field>): Option<map<string, string>>
  {
    if fs == [] then Some(map[]) else TakeSite(ListFold(fs[..|fs| - 1]), fs[|fs| - 1])
  }

  function ListOf(b: string): Option<map<string, string>>
  {
    if Parse(b).None? then None else ListFold(Parse(b).value)
  }

  // ------------------------------------------------- the format, byte by byte

  /** Two bytes in front do not hide what follows. */
  lemma Heads(a: nat, b: nat, s: string)
    requires a < 256 && b < 256
    ensures var t := [a as char, b as char] + s;
      && t[0] as int == a && t[1] as int == b && t[1..][0] as int == b && t[1..][1..] == s && t[2..] == s
      && t[1..] == [b as char] + s
  {
    var t := [a as char, b as char] + s;
    assert t[1..] == [b as char] + s;
  }

  /** A first byte below 128 is a tag by itself: field number times eight plus
      the type. */
  lemma TagByte(x: nat, s: string)
    requires x < 128
    ensures ConsumeTag([x as char] + s) == if x < 8 then None else Some(Read(Tag(x / 8, x % 8), 1))
    ensures ([x as char] + s)[1..] == s
  {
    var b := [x as char] + s;
    assert b[0] as int == x && b[1..] == s;
  }

  /** A one-byte tag and what comes after it. */
  lemma TagThen(n: nat, typ: nat, after: string)
    requires 1 <= n <= 15 && typ < 8
    ensures var v := ValueOf(Tag(n, typ), after);
      Next([(8 * n + typ) as char] + after) == if v.None? then None else Some(Read(v.value.value, 1 + v.value.size))
  {
    TagByte(8 * n + typ, after);
    var b := [(8 * n + typ) as char] + after;
    assert b[1..] == after;
    assert (8 * n + typ) / 8 == n && (8 * n + typ) % 8 == typ;
    assert ConsumeTag(b) == Some(Read(Tag(n, typ), 1));
  }

  /** Type 0: one byte below 128 is the number; of two, the first gives the low
      seven bits. */
  lemma NumberBytes(n: nat, v: nat, w: nat, rest: string)
    requires 1 <= n <= 15 && v < 128 && w < 128
    ensures Next([(8 * n + 0) as char] + ([v as char] + rest)) == Some(Read(Number(n, v), 2))
    ensures Next([(8 * n + 0) as char] + ([(v + 128) as char, w as char] + rest)) == Some(Read(Number(n, v + 128 * w), 3))
  {
    var one := [v as char] + rest;
    TagThen(n, 0, one);
    assert one[0] as int == v;
    var two := [(v + 128) as char, w as char] + rest;
    TagThen(n, 0, two);
    Heads(v + 128, w, rest);
    assert VarintFrom(two[1..], 1) == Some(Read(w, 1));
  }

  lemma CountedBytes(s: string, rest: string)
    requires |s| < 128
    ensures ConsumeBytes([|s| as char] + s + rest) == Some(Read(s, 1 + |s|))
  {
    var b := [|s| as char] + s + rest;
    assert b[0] as int == |s|;
    assert ConsumeVarint(b) == Some(Read(|s|, 1));
    assert b[1..1 + |s|] == s;
  }

  /** Type 2: a length, and that many bytes. */
  lemma BlobBytes(n: nat, s: string, rest: string)
    requires 1 <= n <= 15 && |s| < 128
    ensures Next([(8 * n + 2) as char] + ([|s| as char] + s + rest)) == Some(Read(Blob(n, s), 2 + |s|))
  {
    TagThen(n, 2, [|s| as char] + s + rest);
    CountedBytes(s, rest);
  }

  /** A number as a message of its own, and a blob. */
  ghost function NumberField(n: nat, v: nat): string
    requires n <= 15 && v < 128
  {
    [(8 * n + 0) as char, v as char]
  }

  ghost function BlobField(n: nat, s: string): string
    requires n <= 15 && |s| < 128
  {
    [(8 * n + 2) as char, |s| as char] + s
  }

  lemma FieldsParse(n: nat, v: nat, s: string)
    requires 1 <= n <= 15 && v < 128 && |s| < 128
    ensures Parse(NumberField(n, v)) == Some([Number(n, v)]) && Parse(BlobField(n, s)) == Some([Blob(n, s)])
  {
    NumberBytes(n, v, 0, "");
    assert NumberField(n, v) == [(8 * n + 0) as char] + ([v as char] + "");
    ParseOnly(NumberField(n, v), Number(n, v));
    BlobBytes(n, s, "");
    assert BlobField(n, s) == [(8 * n + 2) as char] + ([|s| as char] + s + "");
    ParseOnly(BlobField(n, s), Blob(n, s));
  }

  lemma ParseTwo(p: string, q: string, fs: seq<Field>, g: Field)
    requires Parse(p) == Some(fs) && Parse(q) == Some([g])
    ensures Parse(p + q) == Some(fs + [g])
  {
    ParseAppend(p, q);
  }

  /** Types 1 and 5 take eight and four bytes. */
  lemma FixedBytes(n: nat, b: string)
    requires 1 <= n <= 15
    ensures Next([(8 * n + 1) as char] + b) == if |b| < 8 then None else Some(Read(Other(n, 1), 9))
    ensures Next([(8 * n + 5) as char] + b) == if |b| < 4 then None else Some(Read(Other(n, 5), 5))
  {
    TagThen(n, 1, b);
    TagThen(n, 5, b);
  }

  /** A closing marker by itself is no field; 6 and 7 are no types, and 0 is no
      field number. */
  lemma NoField(n: nat, b: string)
    requires 1 <= n <= 15
    ensures Next([(8 * n + 4) as char] + b) == None
    ensures Next([(8 * n + 6) as char] + b) == Next([(8 * n + 7) as char] + b) == None
    ensures Next([(n % 8) as char] + b) == None
  {
    TagThen(n, 4, b);
    TagThen(n, 6, b);
    TagThen(n, 7, b);
    TagByte(n % 8, b);
  }

  lemma GroupClosed(n: nat, k: nat, outer: seq<nat>, rest: string)
    requires 1 <= n <= 15 && 1 <= k <= 15
    ensures SkipGroups(outer + [n], [(8 * k + 4) as char] + rest) == if k == n then Plus(1, SkipGroups(outer, rest)) else None
  {
    var b := [(8 * k + 4) as char] + rest;
    TagByte(8 * k + 4, rest);
    assert ConsumeTag(b) == Some(Read(Tag(k, 4), 1));
    var open := outer + [n];
    assert open[|open| - 1] == n && open[..|open| - 1] == outer;
    if k == n {
      assert rest[0..] == rest;
      GroupsStep(open, b, Read(Tag(k, 4), 1), rest, (outer, 0), rest);
    }
  }

  /** A group opens inside up to 10000 others. */
  lemma GroupOpened(open: seq<nat>, k: nat, inner: string)
    requires open != [] && 1 <= k <= 15
    ensures SkipGroups(open, [(8 * k + 3) as char] + inner) ==
      if |open| > 10000 then None else Plus(1, SkipGroups(open + [k], inner))
  {
    var body := [(8 * k + 3) as char] + inner;
    TagByte(8 * k + 3, inner);
    assert ConsumeTag(body) == Some(Read(Tag(k, 3), 1));
    assert body[1..] == inner && inner[0..] == inner;
    if |open| <= 10000 {
      GroupsStep(open, body, Read(Tag(k, 3), 1), inner, (open + [k], 0), inner);
    }
  }

  /** A group in a group. */
  lemma NestedGroup(n: nat, k: nat, rest: string)
    requires 1 <= n <= 15 && 1 <= k <= 15
    ensures SkipGroups([n], [(8 * k + 3) as char] + ([(8 * k + 4) as char] + ([(8 * n + 4) as char] + rest))) == Some(3)
  {
    var last := [(8 * n + 4) as char] + rest;
    var inner := [(8 * k + 4) as char] + last;
    GroupClosed(n, n, [], rest);
    assert [] + [n] == [n];
    var ended := SkipGroups([], rest);
    assert ended == Some(0);
    GroupClosed(k, k, [n], last);
    GroupOpened([n], k, inner);
  }

  /** Type 3 opens a group and 4 closes it, under the same number; groups
      nest. */
  lemma GroupBytes(n: nat, k: nat, rest: string)
    requires 1 <= n <= 15 && 1 <= k <= 15
    ensures Next([(8 * n + 3) as char] + ([(8 * k + 4) as char] + rest)) == if k == n then Some(Read(Other(n, 3), 2)) else None
    ensures Next([(8 * n + 3) as char] + ([(8 * k + 3) as char] + ([(8 * k + 4) as char] + ([(8 * n + 4) as char] + rest)))) ==
      Some(Read(Other(n, 3), 4))
  {
    TagThen(n, 3, [(8 * k + 4) as char] + rest);
    GroupClosed(n, k, [], rest);
    assert [] + [n] == [n] && SkipGroups([], rest) == Some(0);
    TagThen(n, 3, [(8 * k + 3) as char] + ([(8 * k + 4) as char] + ([(8 * n + 4) as char] + rest)));
    NestedGroup(n, k, rest);
  }

  /** The numbers of the kinds. */
  ghost predicate KindIs(v: nat, k: EntryKind)
  {
    match v
    case 0 => k == KindPlain
    case 1 => k == KindRegex
    case 2 => k == KindRoot
    case 3 => k == KindFull
    case _ => k == KindUnknown
  }

  lemma Snoc(fs: seq<Field>, f: Field)
    ensures (fs + [f])[..|fs|] == fs
  {
  }

  lemma FoldOfThree(v: nat, s: string, key: string, a: string)
    requires StringField(key, 1) == Some(a) && a != ""
    ensures var xs := [Number(1, v), Blob(2, s)];
      DomainFold(xs) == Entry(KindOf(v), Lower(s), []) && DomainFold(xs + [Blob(3, key)]) == Entry(KindOf(v), Lower(s), [a])
  {
    var xs := [Number(1, v), Blob(2, s)];
    assert xs[..1] == [Number(1, v)] && xs[..1][..0] == [];
    assert DomainFold([]) == Entry(KindPlain, "", []);
    assert DomainFold(xs[..1]) == Entry(KindOf(v), "", []);
    Snoc(xs, Blob(3, key));
    assert [] + [a] == [a];
  }

  lemma KeyRead(a: string)
    requires 0 < |a| < 126
    ensures StringField(BlobField(1, a), 1) == Some(a)
  {
    BlobBytes(1, a, "");
    assert BlobField(1, a) == [(8 * 1 + 2) as char] + ([|a| as char] + a + "");
  }

  /** A record in bytes: field 1 is the kind, 2 the value, and 3 an attribute
      with its key in field 1. */
  lemma RecordBytes(v: nat, s: string, a: string, k: EntryKind)
    requires v < 128 && |s| < 128 && 0 < |a| < 126 && KindIs(v, k)
    ensures var d := NumberField(1, v) + BlobField(2, s);
      && DomainOf(d) == Some(Entry(k, Lower(s), []))
      && DomainOf(d + BlobField(3, BlobField(1, a))) == Some(Entry(k, Lower(s), [a]))
  {
    var d, key := NumberField(1, v) + BlobField(2, s), BlobField(1, a);
    FieldsParse(1, v, a);
    FieldsParse(2, v, s);
    FieldsParse(3, v, key);
    ParseTwo(NumberField(1, v), BlobField(2, s), [Number(1, v)], Blob(2, s));
    assert [Number(1, v)] + [Blob(2, s)] == [Number(1, v), Blob(2, s)];
    ParseTwo(d, BlobField(3, key), [Number(1, v), Blob(2, s)], Blob(3, key));
    KeyRead(a);
    FoldOfThree(v, s, key, a);
    assert KindOf(v) == k;
  }

  /** The record 08 02 12 0b "example.com". */
  lemma ExampleRecord()
    ensures DomainOf([0x08 as char, 0x02 as char, 0x12 as char, 0x0B as char] + "example.com") ==
      Some(Entry(KindRoot, "example.com", []))
  {
    var s := "example.com";
    RecordBytes(2, s, "x", KindRoot);
    assert NumberField(1, 2) + BlobField(2, s) == [0x08 as char, 0x02 as char, 0x12 as char, 0x0B as char] + s;
    LowerIdle(s);
  }

  lemma SiteFolds(tag: string, d: string, e: Entry)
    requires DomainOf(d) == Some(e) && e.value != ""
    ensures SiteFold([Blob(1, tag)] + [Blob(2, d)]) == Some([e])
  {
    assert ([Blob(1, tag)] + [Blob(2, d)])[..1] == [Blob(1, tag)] && [Blob(1, tag)][..0] == [];
    assert SiteFold([]) == Some([]) && SiteFold([Blob(1, tag)]) == Some([]) && [] + [e] == [e];
  }

  lemma TagFirst(tag: string, rest: string)
    requires 0 < |tag| < 60
    ensures StringField(BlobField(1, tag) + rest, 1) == Some(tag)
  {
    BlobBytes(1, tag, rest);
    assert BlobField(1, tag) + rest == [(8 * 1 + 2) as char] + ([|tag| as char] + tag + rest);
  }

  lemma OneSite(site: string, tag: string)
    requires StringField(site, 1) == Some(tag) && tag != ""
    ensures ListFold([Blob(1, site)]) == Some(map[Lower(tag) := site])
  {
    assert [Blob(1, site)][..0] == [] && ListFold([]) == Some(map[]);
  }

  /** A site in bytes: field 1 is the tag, 2 a record. A list has its sites in
      field 1. */
  lemma SiteBytes(tag: string, d: string, e: Entry)
    requires 0 < |tag| < 60 && |d| < 60 && DomainOf(d) == Some(e) && e.value != ""
    ensures var site := BlobField(1, tag) + BlobField(2, d);
      SiteOf(site) == Some([e]) && ListOf(BlobField(1, site)) == Some(map[Lower(tag) := site])
  {
    var record := BlobField(2, d);
    var site := BlobField(1, tag) + record;
    FieldsParse(1, 0, tag);
    FieldsParse(2, 0, d);
    FieldsParse(1, 0, site);
    ParseTwo(BlobField(1, tag), record, [Blob(1, tag)], Blob(2, d));
    SiteFolds(tag, d, e);
    TagFirst(tag, record);
    OneSite(site, tag);
  }

  // ------------------------------------------------------------- the decoders

  lemma {:induction false} ListBroken(fs: seq<Field>, more: seq<Field>)
    requires ListFold(fs).None?
    ensures ListFold(fs + more).None?
  {
    if more == [] {
      assert fs + more == fs;
    } else {
      assert (fs + more)[..|fs + more| - 1] == fs + more[..|more| - 1];
      ListBroken(fs, more[..|more| - 1]);
    }
  }

  lemma {:induction false} SiteBroken(fs: seq<Field>, more: seq<Field>)
    requires SiteFold(fs).None?
    ensures SiteFold(fs + more).None?
  {
    if more == [] {
      assert fs + more == fs;
    } else {
      assert (fs + more)[..|fs + more| - 1] == fs + more[..|more| - 1];
      SiteBroken(fs, more[..|more| - 1]);
    }
  }

  /** A loop has parsed fs and has rest to go. */
  ghost predicate Between(all: string, fs: seq<Field>, rest: string)
  {
    Parse(all) == Join(fs, Parse(rest))
  }

  lemma BetweenStart(all: string)
    ensures Between(all, [], all)
  {
    assert Parse(all).Some? ==> [] + Parse(all).value == Parse(all).value;
  }

  lemma BetweenStep(all: string, fs: seq<Field>, rest: string)
    requires Between(all, fs, rest) && rest != ""
    ensures Next(rest).None? ==> Parse(all).None?
    ensures Next(rest).Some? ==> Between(all, fs + [Next(rest).value.value], rest[Next(rest).value.size..])
  {
    if Next(rest).Some? {
      var f := Next(rest).value;
      ParseStep(rest, f);
      JoinAssociates(fs, [f.value], Parse(rest[f.size..]));
    }
  }

  lemma BetweenEnd(all: string, fs: seq<Field>)
    requires Between(all, fs, "")
    ensures Parse(all) == Some(fs)
  {
    assert Parse("") == Some([]);
    assert fs + [] == fs;
  }

  lemma StringStep(b: string, want: nat)
    requires b != "" && Next(b).Some?
    ensures var f := Next(b).value;
      StringField(b, want) ==
        if f.value.Blob? && f.value.num == want then Some(f.value.bytes) else StringField(b[f.size..], want)
  {
  }

  /** The two ways a reader goes on after a tag. */
  lemma BlobStep(b: string, t: Read<Tag>)
    requires ConsumeTag(b) == Some(t) && t.value.typ == BYTES
    ensures var v := ConsumeBytes(b[t.size..]);
      Next(b) == if v.None? then None else Some(Read(Blob(t.value.num, v.value.value), t.size + v.value.size))
  {
  }

  lemma SkipStep(b: string, t: Read<Tag>)
    requires ConsumeTag(b) == Some(t)
    ensures var n := SkipValue(t.value.num, t.value.typ, b[t.size..]);
      && (n.None? <==> Next(b).None?)
      && (n.Some? ==> Next(b).value.size == t.size + n.value && b[t.size + n.value..] == b[t.size..][n.value..])
    ensures Next(b).Some? ==> Next(b).value.value.num == t.value.num
    ensures Next(b).Some? ==> (Next(b).value.value.Blob? <==> t.value.typ == BYTES)
    ensures Next(b).Some? ==> (Next(b).value.value.Number? <==> t.value.typ == VARINT)
  {
  }

  /** One field: its bytes if it is the wanted one, and what is left. */
  method SeekField(msg: string, want: nat) returns (found: Option<string>, rest: Option<string>)
    requires msg != ""
    ensures rest.None? ==> Next(msg).None?
    ensures rest.Some? ==> Next(msg).Some? && rest.value == msg[Next(msg).value.size..]
    ensures rest.Some? ==>
      var f := Next(msg).value.value; found == if f.Blob? && f.num == want then Some(f.bytes) else None
  {
    found := None;
    var t := ConsumeTag(msg);
    if t.None? {
      return None, None;
    }
    var after := msg[t.value.size..];
    if t.value.value.num == want && t.value.value.typ == BYTES {
      var v := ConsumeBytes(after);
      BlobStep(msg, t.value);
      if v.None? {
        return None, None;
      }
      return Some(v.value.value), Some(after[v.value.size..]);
    }
    var n := SkipValue(t.value.value.num, t.value.value.typ, after);
    SkipStep(msg, t.value);
    if n.None? {
      return None, None;
    }
    return None, Some(after[n.value..]);
  }

  /** `readStringField`. */
  method ReadStringField(input: string, want: nat) returns (r: Option<string>)
    ensures r == StringField(input, want)
  {
    var msg := input;
    while |msg| > 0
      invariant StringField(input, want) == StringField(msg, want)
      decreases |msg|
    {
      var found, rest := SeekField(msg, want);
      if rest.None? {
        return None;
      }
      StringStep(msg, want);
      if found.Some? {
        return found;
      }
      msg := rest.value;
    }
    return Some("");
  }

  /** One site of the list, by its tag. */
  method Index(out: map<string, string>, msg: string) returns (r: Option<map<string, string>>)
    ensures r == TakeSite(Some(out), Blob(1, msg))
  {
    var tag := ReadStringField(msg, 1);
    if tag.None? {
      return None;
    }
    return Some(if tag.value != "" then out[Lower(tag.value) := msg] else out);
  }

  /** One field of the list: what is left of the input, and the new index. */
  method ListField(data: string, out: map<string, string>) returns (rest: Option<string>, r: Option<map<string, string>>)
    requires data != ""
    ensures rest.None? ==> Next(data).None?
    ensures rest.Some? ==> Next(data).Some? && rest.value == data[Next(data).value.size..]
    ensures rest.Some? ==> r == TakeSite(Some(out), Next(data).value.value)
  {
    var t := ConsumeTag(data);
    if t.None? {
      return None, None;
    }
    var after := data[t.value.size..];
    if t.value.value.num != 1 || t.value.value.typ != BYTES {
      var n := SkipValue(t.value.value.num, t.value.value.typ, after);
      SkipStep(data, t.value);
      if n.None? {
        return None, None;
      }
      return Some(after[n.value..]), Some(out);
    }
    var msg := ConsumeBytes(after);
    BlobStep(data, t.value);
    if msg.None? {
      return None, None;
    }
    r := Index(out, msg.value.value);
    return Some(after[msg.value.size..]), r;
  }

  lemma BrokenList(all: string, fs: seq<Field>, rest: string)
    requires Between(all, fs, rest) && ListFold(fs).None?
    ensures ListOf(all).None?
  {
    if Parse(rest).Some? {
      ListBroken(fs, Parse(rest).value);
    }
  }

  /** `splitList`. */
  method SplitList(input: string) returns (r: Option<map<string, string>>)
    ensures r == ListOf(input)
  {
    var data := input;
    var out: map<string, string> := map[];
    ghost var fs: seq<Field> := [];
    BetweenStart(input);
    while |data| > 0
      invariant Between(input, fs, data) && ListFold(fs) == Some(out)
      decreases |data|
    {
      BetweenStep(input, fs, data);
      ghost var f := Next(data);
      var rest, more := ListField(data, out);
      if rest.None? {
        return None;
      }
      data := rest.value;
      Snoc(fs, f.value.value);
      fs := fs + [f.value.value];
      if more.None? {
        BrokenList(input, fs, data);
        return None;
      }
      out := more.value;
    }
    BetweenEnd(input, fs);
    return Some(out);
  }

  lemma BrokenSite(all: string, fs: seq<Field>, rest: string)
    requires Between(all, fs, rest) && SiteFold(fs).None?
    ensures SiteOf(all).None?
  {
    if Parse(rest).Some? {
      SiteBroken(fs, Parse(rest).value);
    }
  }

  /** An attribute without a readable key is dropped. */
  method AddAttr(e: Entry, bytes: string) returns (r: Entry)
    ensures r == TakeDomain(e, Blob(3, bytes))
  {
    var key := ReadStringField(bytes, 1);
    r := if key.Some? && key.value != "" then e.(attrs := e.attrs + [key.value]) else e;
  }

  /** One field of a record: what is left of the input, and the new record. */
  method DomainField(msg: string, e: Entry) returns (rest: Option<string>, r: Entry)
    requires msg != ""
    ensures rest.None? ==> Next(msg).None?
    ensures rest.Some? ==> Next(msg).Some? && rest.value == msg[Next(msg).value.size..]
    ensures rest.Some? ==> r == TakeDomain(e, Next(msg).value.value)
  {
    r := e;
    var t := ConsumeTag(msg);
    if t.None? {
      return None, r;
    }
    var num, typ := t.value.value.num, t.value.value.typ;
    var after := msg[t.value.size..];
    if num == 1 && typ == VARINT {
      var v := ConsumeVarint(after);
      if v.None? {
        return None, r;
      }
      return Some(after[v.value.size..]), e.(kind := KindOf(v.value.value));
    }
    if (num == 2 || num == 3) && typ == BYTES {
      var v := ConsumeBytes(after);
      BlobStep(msg, t.value);
      if v.None? {
        return None, r;
      }
      if num == 2 {
        r := e.(value := Lower(v.value.value));
      } else {
        r := AddAttr(e, v.value.value);
      }
      return Some(after[v.value.size..]), r;
    }
    var n := SkipValue(num, typ, after);
    SkipStep(msg, t.value);
    if n.None? {
      return None, r;
    }
    return Some(after[n.value..]), r;
  }

  /** `decodeDomain`. */
  method DecodeDomain(input: string) returns (r: Option<Entry>)
    ensures r == DomainOf(input)
  {
    var msg := input;
    var e := Entry(KindPlain, "", []);
    ghost var fs: seq<Field> := [];
    BetweenStart(input);
    while |msg| > 0
      invariant Between(input, fs, msg) && DomainFold(fs) == e
      decreases |msg|
    {
      BetweenStep(input, fs, msg);
      ghost var f := Next(msg);
      var rest, more := DomainField(msg, e);
      if rest.None? {
        return None;
      }
      msg, e := rest.value, more;
      Snoc(fs, f.value.value);
      fs := fs + [f.value.value];
    }
    BetweenEnd(input, fs);
    return Some(e);
  }

  /** One field of a site: what is left of the input, and the entries. */
  method SiteField(msg: string, out: seq<Entry>) returns (rest: Option<string>, r: Option<seq<Entry>>)
    requires msg != ""
    ensures rest.None? ==> Next(msg).None?
    ensures rest.Some? ==> Next(msg).Some? && rest.value == msg[Next(msg).value.size..]
    ensures rest.Some? ==> r == TakeEntry(Some(out), Next(msg).value.value)
  {
    var t := ConsumeTag(msg);
    if t.None? {
      return None, None;
    }
    var after := msg[t.value.size..];
    if t.value.value.num != 2 || t.value.value.typ != BYTES {
      var n := SkipValue(t.value.value.num, t.value.value.typ, after);
      SkipStep(msg, t.value);
      if n.None? {
        return None, None;
      }
      return Some(after[n.value..]), Some(out);
    }
    var dm := ConsumeBytes(after);
    BlobStep(msg, t.value);
    if dm.None? {
      return None, None;
    }
    var e := DecodeDomain(dm.value.value);
    if e.None? {
      return Some(after[dm.value.size..]), None;
    }
    return Some(after[dm.value.size..]), Some(if e.value.value != "" then out + [e.value] else out);
  }

  /** `decodeGeoSite`. */
  method DecodeGeoSite(input: string) returns (r: Option<seq<Entry>>)
    ensures r == SiteOf(input)
  {
    var msg := input;
    var out: seq<Entry> := [];
    ghost var fs: seq<Field> := [];
    BetweenStart(input);
    while |msg| > 0
      invariant Between(input, fs, msg) && SiteFold(fs) == Some(out)
      decreases |msg|
    {
      BetweenStep(input, fs, msg);
      ghost var f := Next(msg);
      var rest, more := SiteField(msg, out);
      if rest.None? {
        return None;
      }
      msg := rest.value;
      Snoc(fs, f.value.value);
      fs := fs + [f.value.value];
      if more.None? {
        BrokenSite(input, fs, msg);
        return None;
      }
      out := more.value;
    }
    BetweenEnd(input, fs);
    return Some(out);
  }

  lemma {:induction false} RecordIsLower(fs: seq<Field>)
    ensures Lower(DomainFold(fs).value) == DomainFold(fs).value
  {
    if fs != [] {
      RecordIsLower(fs[..|fs| - 1]);
      var f := fs[|fs| - 1];
      if f.Blob? && f.num == 2 {
        assert Lower(Lower(f.bytes)) == Lower(f.bytes);
      }
    }
  }

  /** Whatever the bytes, the entries a site decodes to have a value, in lower
      case. */
  lemma {:induction false} DecodedIsLower(fs: seq<Field>)
    ensures SiteFold(fs).Some? ==> forall e :: e in SiteFold(fs).value ==> e.value != "" && Lower(e.value) == e.value
  {
    if fs != [] {
      DecodedIsLower(fs[..|fs| - 1]);
      var f := fs[|fs| - 1];
      if f.Blob? && f.num == 2 && Parse(f.bytes).Some? {
        RecordIsLower(Parse(f.bytes).value);
      }
    }
  }

  // -------------------------------------------------- unknown fields are noise

  lemma {:induction false} ListFoldSkips(xs: seq<Field>, f: Field, ys: seq<Field>)
    requires !(f.Blob? && f.num == 1)
    ensures ListFold(xs + [f] + ys) == ListFold(xs + ys)
  {
    if ys == [] {
      assert xs + [f] + ys == xs + [f] && xs + ys == xs;
      Snoc(xs, f);
    } else {
      var front := ys[..|ys| - 1];
      assert (xs + [f] + ys)[..|xs + [f] + ys| - 1] == xs + [f] + front;
      assert (xs + ys)[..|xs + ys| - 1] == xs + front;
      ListFoldSkips(xs, f, front);
    }
  }

  lemma {:induction false} SiteFoldSkips(xs: seq<Field>, f: Field, ys: seq<Field>)
    requires !(f.Blob? && f.num == 2)
    ensures SiteFold(xs + [f] + ys) == SiteFold(xs + ys)
  {
    if ys == [] {
      assert xs + [f] + ys == xs + [f] && xs + ys == xs;
      Snoc(xs, f);
    } else {
      var front := ys[..|ys| - 1];
      assert (xs + [f] + ys)[..|xs + [f] + ys| - 1] == xs + [f] + front;
      assert (xs + ys)[..|xs + ys| - 1] == xs + front;
      SiteFoldSkips(xs, f, front);
    }
  }

  lemma {:induction false} DomainFoldSkips(xs: seq<Field>, f: Field, ys: seq<Field>)
    requires !(f.Number? && f.num == 1) && !(f.Blob? && f.num in {2, 3})
    ensures DomainFold(xs + [f] + ys) == DomainFold(xs + ys)
  {
    if ys == [] {
      assert xs + [f] + ys == xs + [f] && xs + ys == xs;
      Snoc(xs, f);
    } else {
      var front := ys[..|ys| - 1];
      assert (xs + [f] + ys)[..|xs + [f] + ys| - 1] == xs + [f] + front;
      assert (xs + ys)[..|xs + ys| - 1] == xs + front;
      DomainFoldSkips(xs, f, front);
    }
  }

  lemma ParseInsert(p: string, u: string, s: string, f: Field)
    requires Parse(p).Some? && Parse(u) == Some([f])
    ensures Parse(p + u + s) == Join(Parse(p).value + [f], Parse(s))
    ensures Parse(p + s) == Join(Parse(p).value, Parse(s))
  {
    ParseAppend(p, u);
    ParseAppend(p + u, s);
    ParseAppend(p, s);
  }

  /** One well-formed field of a number or type the reader does not use, put
      between any two fields, changes nothing: for the list of sites, for a
      site and for a record. */
  lemma UnknownFieldsIgnored(p: string, u: string, s: string, f: Field)
    requires Parse(p).Some? && Parse(u) == Some([f])
    ensures !(f.Blob? && f.num == 1) ==> ListOf(p + u + s) == ListOf(p + s)
    ensures !(f.Blob? && f.num == 2) ==> SiteOf(p + u + s) == SiteOf(p + s)
    ensures !(f.Number? && f.num == 1) && !(f.Blob? && f.num in {2, 3}) ==> DomainOf(p + u + s) == DomainOf(p + s)
  {
    ParseInsert(p, u, s, f);
    if Parse(s).Some? {
      var xs, ys := Parse(p).value, Parse(s).value;
      if !(f.Blob? && f.num == 1) {
        ListFoldSkips(xs, f, ys);
      }
      if !(f.Blob? && f.num == 2) {
        SiteFoldSkips(xs, f, ys);
      }
      if !(f.Number? && f.num == 1) && !(f.Blob? && f.num in {2, 3}) {
        DomainFoldSkips(xs, f, ys);
      }
    }
  }

  lemma StringPast(p: string, s: string, want: nat)
    requires p != "" && Next(p).Some?
    ensures var f := Next(p).value;
      StringField(p + s, want) ==
        if f.value.Blob? && f.value.num == want then Some(f.value.bytes) else StringField(p[f.size..] + s, want)
  {
    NextLocal(p, s);
    StringStep(p + s, want);
    assert (p + s)[Next(p).value.size..] == p[Next(p).value.size..] + s;
  }

  lemma Associate(a: string, b: string, c: string)
    ensures (a + b) + c == a + (b + c)
  {
  }

  lemma StringPastTwo(p: string, u: string, s: string, want: nat)
    requires p != "" && Next(p).Some?
    ensures var f := Next(p).value;
      StringField(p + u + s, want) ==
        if f.value.Blob? && f.value.num == want then Some(f.value.bytes) else StringField(p[f.size..] + u + s, want)
  {
    StringPast(p, u + s, want);
    Associate(p, u, s);
    Associate(p[Next(p).value.size..], u, s);
  }

  /** Likewise for the first occurrence of a string field. */
  lemma {:induction false} UnknownFieldsIgnoredInString(p: string, u: string, s: string, f: Field, want: nat)
    requires Parse(p).Some? && u != "" && Next(u) == Some(Read(f, |u|)) && !(f.Blob? && f.num == want)
    ensures StringField(p + u + s, want) == StringField(p + s, want)
    decreases |p|
  {
    if p == "" {
      assert p + u + s == u + s && p + s == s;
      StringPast(u, s, want);
      assert u[|u|..] + s == s;
    } else {
      var g := Next(p).value;
      ParseStep(p, g);
      UnknownFieldsIgnoredInString(p[g.size..], u, s, f, want);
      StringPast(p, s, want);
      StringPastTwo(p, u, s, want);
    }
  }

  /** The first wanted blob among parsed fields; "" without one. */
  ghost function FirstBlob(fs: seq<Field>, want: nat): Option<string>
  {
    if fs == [] then None
    else if fs[0].Blob? && fs[0].num == want then Some(fs[0].bytes)
    else FirstBlob(fs[1..], want)
  }

  /** A string field is the first wanted blob of what is well-formed up to there;
      before it, what is malformed makes the whole unreadable; and a message at
      whose end none was found gives the empty string. */
  lemma {:induction false} StringFieldMeans(p: string, bad: string, want: nat)
    requires Parse(p).Some?
    ensures var first := FirstBlob(Parse(p).value, want);
      && StringField(p, want) == Some(if first.Some? then first.value else "")
      && (bad != "" && Next(bad).None? ==> StringField(p + bad, want) == first && Parse(p + bad) == None)
    decreases |p|
  {
    if p == "" {
      assert p + bad == bad;
    } else {
      var f := Next(p).value;
      ParseStep(p, f);
      var fs, more := Parse(p).value, Parse(p[f.size..]).value;
      assert fs == [f.value] + more && fs[1..] == more;
      StringFieldMeans(p[f.size..], bad, want);
      StringPast(p, bad, want);
      StringStep(p, want);
      ParsePast(p, bad, f);
    }
  }

  // -------------------------------------------------------------- the encoder

  /** The stored number of a kind; an unknown one is the two's complement of
      minus one. */
  function KindNumber(k: EntryKind): nat
  {
    match k
    case KindPlain => 0
    case KindRegex => 1
    case KindRoot => 2
    case KindFull => 3
    case KindUnknown => UINT64 - 1
  }

  function EncAttrs(attrs: seq<string>): string
  {
    if attrs == [] then ""
    else EncAttrs(attrs[..|attrs| - 1]) + EncBlob(3, EncBlob(1, attrs[|attrs| - 1]))
  }

  function EncDomain(e: Entry): string
  {
    EncTag(1, VARINT) + EncVarint(KindNumber(e.kind)) + EncBlob(2, e.value) + EncAttrs(e.attrs)
  }

  function EncEntries(es: seq<Entry>): string
  {
    if es == [] then "" else EncEntries(es[..|es| - 1]) + EncBlob(2, EncDomain(es[|es| - 1]))
  }

  function EncSite(tag: string, es: seq<Entry>): string
  {
    EncBlob(1, tag) + EncEntries(es)
  }

  function EncList(order: seq<string>, sites: map<string, seq<Entry>>): string
    requires forall t :: t in order ==> t in sites
  {
    if order == [] then ""
    else
      var tag := order[|order| - 1];
      EncList(order[..|order| - 1], sites) + EncBlob(1, EncSite(tag, sites[tag]))
  }

  method EncodeAttrs(attrs: seq<string>) returns (dm: string)
    ensures dm == EncAttrs(attrs)
  {
    dm := "";
    for i := 0 to |attrs|
      invariant dm == EncAttrs(attrs[..i])
    {
      assert attrs[..i + 1][..i] == attrs[..i];
      var attr := EncBlob(1, attrs[i]);
      dm := dm + EncBlob(3, attr);
    }
    assert attrs[..|attrs|] == attrs;
  }

  method EncodeDomain(e: Entry) returns (dm: string)
    ensures dm == EncDomain(e)
  {
    dm := EncTag(1, VARINT);
    dm := dm + EncVarint(KindNumber(e.kind));
    dm := dm + (EncTag(2, BYTES) + EncBytes(e.value));
    var attrs := EncodeAttrs(e.attrs);
    dm := dm + attrs;
  }

  method EncodeSite(tag: string, entries: seq<Entry>) returns (site: string)
    ensures site == EncSite(tag, entries)
  {
    site := EncTag(1, BYTES) + EncBytes(tag);
    for i := 0 to |entries|
      invariant site == EncBlob(1, tag) + EncEntries(entries[..i])
    {
      assert entries[..i + 1][..i] == entries[..i];
      var dm := EncodeDomain(entries[i]);
      var more := EncTag(2, BYTES) + EncBytes(dm);
      Associate(EncBlob(1, tag), EncEntries(entries[..i]), more);
      site := site + more;
    }
    assert entries[..|entries|] == entries;
  }

  /** An order in which a map may be walked. */
  ghost predicate Walks(order: seq<string>, sites: map<string, seq<Entry>>)
  {
    && (forall i, j :: 0 <= i < j < |order| ==> order[i] != order[j])
    && (forall t :: t in order <==> t in sites)
  }

  /** `EncodeSiteList`: the sites in whatever order the map yields. */
  method EncodeSiteList(sites: map<string, seq<Entry>>) returns (out: string, order: seq<string>)
    ensures Walks(order, sites)
    ensures out == EncList(order, sites)
  {
    out := "";
    order := [];
    var todo := sites.Keys;
    while todo != {}
      invariant todo <= sites.Keys
      invariant forall t :: t in order <==> t in sites && t !in todo
      invariant forall i, j :: 0 <= i < j < |order| ==> order[i] != order[j]
      invariant out == EncList(order, sites)
    {
      var tag :| tag in todo;
      var site := EncodeSite(tag, sites[tag]);
      out := out + (EncTag(1, BYTES) + EncBytes(site));
      assert (order + [tag])[..|order|] == order;
      order := order + [tag];
      todo := todo - {tag};
    }
  }

  // --------------------------------------------------------------- round trip

  function KeptAttr(a: string): seq<string> { if a != "" then [a] else [] }

  /** What a decoder keeps of an attribute list and of an entry list. */
  function KeptAttrs(attrs: seq<string>): seq<string>
  {
    if attrs == [] then [] else KeptAttrs(attrs[..|attrs| - 1]) + KeptAttr(attrs[|attrs| - 1])
  }

  function KeptEntry(e: Entry): Entry
  {
    Entry(e.kind, Lower(e.value), KeptAttrs(e.attrs))
  }

  function KeptEntries(es: seq<Entry>): seq<Entry>
  {
    if es == [] then []
    else
      var last := es[|es| - 1];
      KeptEntries(es[..|es| - 1]) + if last.value == "" then [] else [KeptEntry(last)]
  }

  lemma BlobFirst(b: string, f: Field)
    requires Parse(b) == Some([f])
    ensures b != "" && Next(b).Some? && Next(b).value.value == f
  {
    var g := Next(b).value;
    ParseStep(b, g);
    var rest := Parse(b[g.size..]).value;
    assert ([g.value] + rest)[0] == g.value;
  }

  lemma FirstString(num: nat, s: string)
    requires 1 <= num <= MAX_FIELD && |s| < UINT64
    ensures StringField(EncBlob(num, s), num) == Some(s)
    ensures forall rest :: StringField(EncBlob(num, s) + rest, num) == Some(s)
  {
    ParseBlob(num, s);
    var b := EncBlob(num, s);
    BlobFirst(b, Blob(num, s));
    StringStep(b, num);
    forall rest
      ensures StringField(b + rest, num) == Some(s)
    {
      NextLocal(b, rest);
      StringStep(b + rest, num);
    }
  }

  lemma LastAttr(attrs: seq<string>) returns (blob: string, inner: string)
    requires attrs != [] && |EncAttrs(attrs)| < UINT64
    ensures EncAttrs(attrs) == EncAttrs(attrs[..|attrs| - 1]) + blob
    ensures Parse(blob) == Some([Blob(3, inner)]) && StringField(inner, 1) == Some(attrs[|attrs| - 1])
  {
    inner := EncBlob(1, attrs[|attrs| - 1]);
    blob := EncBlob(3, inner);
    ParseBlob(3, inner);
    FirstString(1, attrs[|attrs| - 1]);
  }

  /** One more field at the end, for every fold. */
  lemma FieldAppend(p: string, s: string, f: Field)
    requires Parse(p).Some? && Parse(s) == Some([f])
    ensures Parse(p + s) == Some(Parse(p).value + [f])
    ensures var fs := Parse(p).value;
      && DomainFold(fs + [f]) == TakeDomain(DomainFold(fs), f)
      && SiteFold(fs + [f]) == TakeEntry(SiteFold(fs), f)
      && ListFold(fs + [f]) == TakeSite(ListFold(fs), f)
  {
    ParseAppend(p, s);
    Snoc(Parse(p).value, f);
  }

  lemma AttrStep(p: string, x: string, blob: string, inner: string, kept: seq<string>, a: string)
    requires Parse(p).Some? && Parse(p + x).Some?
    requires var base := DomainFold(Parse(p).value);
      DomainFold(Parse(p + x).value) == base.(attrs := base.attrs + kept)
    requires Parse(blob) == Some([Blob(3, inner)]) && StringField(inner, 1) == Some(a)
    ensures Parse(p + (x + blob)).Some?
    ensures var base := DomainFold(Parse(p).value);
      DomainFold(Parse(p + (x + blob)).value) == base.(attrs := base.attrs + (kept + KeptAttr(a)))
  {
    Associate(p, x, blob);
    FieldAppend(p + x, blob, Blob(3, inner));
    var base := DomainFold(Parse(p).value);
    assert (base.attrs + kept) + KeptAttr(a) == base.attrs + (kept + KeptAttr(a));
    assert kept + [] == kept;
  }

  lemma {:induction false} AttrsRoundTrip(p: string, attrs: seq<string>)
    requires Parse(p).Some? && |EncAttrs(attrs)| < UINT64
    ensures Parse(p + EncAttrs(attrs)).Some?
    ensures var base := DomainFold(Parse(p).value);
      DomainFold(Parse(p + EncAttrs(attrs)).value) == base.(attrs := base.attrs + KeptAttrs(attrs))
  {
    if attrs == [] {
      assert p + EncAttrs(attrs) == p;
      assert KeptAttrs(attrs) == [];
    } else {
      var front, a := attrs[..|attrs| - 1], attrs[|attrs| - 1];
      AttrsRoundTrip(p, front);
      var blob, inner := LastAttr(attrs);
      AttrStep(p, EncAttrs(front), blob, inner, KeptAttrs(front), a);
    }
  }

  lemma KindBytes(k: EntryKind) returns (b: string, v: nat)
    ensures b == EncTag(1, VARINT) + EncVarint(KindNumber(k))
    ensures Parse(b) == Some([Number(1, v)]) && KindOf(v) == k
  {
    v := KindNumber(k);
    b := EncTag(1, VARINT) + EncVarint(v);
    ParseNumber(1, v);
  }

  lemma NumberAlone(v: nat)
    ensures DomainFold([Number(1, v)]) == Entry(KindOf(v), "", [])
  {
    assert [Number(1, v)][..0] == [];
  }

  lemma HeadStep(kind: string, v: nat, blob: string, value: string)
    requires Parse(kind) == Some([Number(1, v)]) && Parse(blob) == Some([Blob(2, value)])
    ensures Parse(kind + blob).Some?
    ensures DomainFold(Parse(kind + blob).value) == Entry(KindOf(v), Lower(value), [])
  {
    NumberAlone(v);
    FieldAppend(kind, blob, Blob(2, value));
  }

  lemma HeadRoundTrip(e: Entry)
    requires |e.value| < UINT64
    ensures var b := EncTag(1, VARINT) + EncVarint(KindNumber(e.kind)) + EncBlob(2, e.value);
      Parse(b).Some? && DomainFold(Parse(b).value) == Entry(e.kind, Lower(e.value), [])
  {
    var kind, v := KindBytes(e.kind);
    ParseBlob(2, e.value);
    HeadStep(kind, v, EncBlob(2, e.value), e.value);
  }

  lemma DomainRoundTrip(e: Entry)
    requires |EncDomain(e)| < UINT64
    ensures DomainOf(EncDomain(e)) == Some(KeptEntry(e))
  {
    var kind, value := EncTag(1, VARINT) + EncVarint(KindNumber(e.kind)), EncBlob(2, e.value);
    HeadRoundTrip(e);
    AttrsRoundTrip(kind + value, e.attrs);
    assert [] + KeptAttrs(e.attrs) == KeptAttrs(e.attrs);
  }

  lemma Grow(p: string, x: string, blob: string, dm: string, kept: seq<Entry>, e: Entry)
    requires Parse(p + x).Some? && SiteFold(Parse(p + x).value) == Some(kept)
    requires Parse(blob) == Some([Blob(2, dm)]) && DomainOf(dm) == Some(KeptEntry(e))
    ensures Parse(p + (x + blob)).Some?
    ensures SiteFold(Parse(p + (x + blob)).value) == Some(kept + if e.value == "" then [] else [KeptEntry(e)])
  {
    Associate(p, x, blob);
    FieldAppend(p + x, blob, Blob(2, dm));
    assert kept + [] == kept;
  }

  lemma LastEntry(es: seq<Entry>) returns (blob: string, dm: string)
    requires es != [] && |EncEntries(es)| < UINT64
    ensures EncEntries(es) == EncEntries(es[..|es| - 1]) + blob
    ensures Parse(blob) == Some([Blob(2, dm)]) && DomainOf(dm) == Some(KeptEntry(es[|es| - 1]))
  {
    dm := EncDomain(es[|es| - 1]);
    blob := EncBlob(2, dm);
    ParseBlob(2, dm);
    DomainRoundTrip(es[|es| - 1]);
  }

  lemma {:induction false} EntriesRoundTrip(p: string, es: seq<Entry>)
    requires Parse(p).Some? && SiteFold(Parse(p).value) == Some([]) && |EncEntries(es)| < UINT64
    ensures Parse(p + EncEntries(es)).Some?
    ensures SiteFold(Parse(p + EncEntries(es)).value) == Some(KeptEntries(es))
  {
    if es == [] {
      assert p + EncEntries(es) == p;
    } else {
      var front, e := es[..|es| - 1], es[|es| - 1];
      EntriesRoundTrip(p, front);
      var blob, dm := LastEntry(es);
      Grow(p, EncEntries(front), blob, dm, KeptEntries(front), e);
    }
  }

  /** Decoding an encoded site yields its entries in order, lower-cased and
      without empty values or attributes. */
  lemma SiteRoundTrip(tag: string, es: seq<Entry>)
    requires |EncSite(tag, es)| < UINT64
    ensures SiteOf(EncSite(tag, es)) == Some(KeptEntries(es))
    ensures StringField(EncSite(tag, es), 1) == Some(tag)
  {
    ParseBlob(1, tag);
    var fs := [Blob(1, tag)];
    assert fs[..0] == [] && SiteFold(fs) == Some([]);
    EntriesRoundTrip(EncBlob(1, tag), es);
    FirstString(1, tag);
  }

  /** The index of an encoded list. */
  function KeptSites(order: seq<string>, sites: map<string, seq<Entry>>): map<string, string>
    requires forall t :: t in order ==> t in sites
  {
    if order == [] then map[]
    else
      var tag := order[|order| - 1];
      var front := KeptSites(order[..|order| - 1], sites);
      if tag == "" then front else front[Lower(tag) := EncSite(tag, sites[tag])]
  }

  lemma {:induction false} ListRoundTrip(order: seq<string>, sites: map<string, seq<Entry>>)
    requires forall t :: t in order ==> t in sites
    requires |EncList(order, sites)| < UINT64
    ensures Parse(EncList(order, sites)).Some?
    ensures ListOf(EncList(order, sites)) == Some(KeptSites(order, sites))
  {
    if order != [] {
      var front, tag := order[..|order| - 1], order[|order| - 1];
      var site := EncSite(tag, sites[tag]);
      ListRoundTrip(front, sites);
      ParseBlob(1, site);
      FieldAppend(EncList(front, sites), EncBlob(1, site), Blob(1, site));
      SiteRoundTrip(tag, sites[tag]);
    }
  }

  predicate CleanEntry(e: Entry)
  {
    e.value != "" && Lower(e.value) == e.value && forall a :: a in e.attrs ==> a != ""
  }

  lemma SameFront<T>(xs: seq<T>, ys: seq<T>, t: T)
    ensures xs + [t] == ys + [t] <==> xs == ys
  {
    assert (xs + [t])[..|xs + [t]| - 1] == xs && (ys + [t])[..|ys + [t]| - 1] == ys;
  }

  lemma {:induction false} CleanAttrsKept(attrs: seq<string>)
    ensures |KeptAttrs(attrs)| <= |attrs|
    ensures KeptAttrs(attrs) == attrs <==> forall a :: a in attrs ==> a != ""
  {
    if attrs != [] {
      var front, last := attrs[..|attrs| - 1], attrs[|attrs| - 1];
      assert attrs == front + [last];
      CleanAttrsKept(front);
      SameFront(KeptAttrs(front), front, last);
      assert last in attrs && forall a :: a in attrs <==> a in front || a == last;
    }
  }

  /** The entries come back unchanged exactly when each is clean. */
  lemma {:induction false} EntriesKeptIff(es: seq<Entry>)
    ensures |KeptEntries(es)| <= |es|
    ensures KeptEntries(es) == es <==> forall e :: e in es ==> CleanEntry(e)
  {
    if es != [] {
      var front, last := es[..|es| - 1], es[|es| - 1];
      assert es == front + [last];
      EntriesKeptIff(front);
      CleanAttrsKept(last.attrs);
      SameFront(KeptEntries(front), front, last);
      assert last.value != "" ==> KeptEntries(es)[|KeptEntries(es)| - 1] == KeptEntry(last);
      assert KeptEntry(last) == last <==> Lower(last.value) == last.value && KeptAttrs(last.attrs) == last.attrs;
      assert (forall e :: e in es ==> CleanEntry(e)) <==> (forall e :: e in front ==> CleanEntry(e)) && CleanEntry(last);
    }
  }

  lemma {:induction false} CleanTags(order: seq<string>, sites: map<string, seq<Entry>>)
    requires forall t :: t in order ==> t in sites && t != "" && Lower(t) == t
    ensures KeptSites(order, sites).Keys == set t | t in order
    ensures forall t :: t in order ==> KeptSites(order, sites)[t] == EncSite(t, sites[t])
  {
    if order != [] {
      var front, last := order[..|order| - 1], order[|order| - 1];
      assert order == front + [last] && last in order;
      assert forall t :: t in front ==> t in order;
      CleanTags(front, sites);
    }
  }

  lemma {:induction false} SiteFits(order: seq<string>, sites: map<string, seq<Entry>>, t: string)
    requires (forall t :: t in order ==> t in sites) && t in order
    ensures |EncSite(t, sites[t])| < |EncList(order, sites)|
  {
    assert order == order[..|order| - 1] + [order[|order| - 1]];
    if t != order[|order| - 1] {
      SiteFits(order[..|order| - 1], sites, t);
    }
  }

  /** Encoding distinct lower-case tags and reading them back: every site is
      found under its tag and decodes to what was written, exactly when its
      entries are clean. */
  lemma RoundTrip(order: seq<string>, sites: map<string, seq<Entry>>)
    requires Walks(order, sites) && |EncList(order, sites)| < UINT64
    requires forall t :: t in sites ==> t != "" && Lower(t) == t
    ensures ListOf(EncList(order, sites)).Some?
    ensures var index := ListOf(EncList(order, sites)).value;
      && index.Keys == sites.Keys
      && forall t :: t in sites ==>
           (SiteOf(index[t]) == Some(sites[t]) <==> forall e :: e in sites[t] ==> CleanEntry(e))
  {
    ListRoundTrip(order, sites);
    CleanTags(order, sites);
    forall t | t in sites
      ensures SiteOf(EncSite(t, sites[t])) == Some(sites[t]) <==> forall e :: e in sites[t] ==> CleanEntry(e)
    {
      assert t in order;
      SiteFits(order, sites, t);
      SiteRoundTrip(t, sites[t]);
      EntriesKeptIff(sites[t]);
    }
  }
}
