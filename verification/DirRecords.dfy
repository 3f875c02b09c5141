/** The record chain of an ext2 directory: bytes, records, and the map from names to inode numbers. */
module DirRecords {

  import opened Bytes

  /** One record. `size` is the distance to the next one; an inode number of zero marks a free record. */
  datatype Entry = Entry(ino: word, size: nat, name: seq<byte>, kind: byte)

  const HEADER := 8

  /** Bytes a record with a name of `n` bytes occupies: header and name, rounded up to four. */
  function Padded(n: nat): (p: nat)
    ensures HEADER + n <= p < HEADER + n + 4 && p % 4 == 0
  {
    var len := HEADER + n;
    if len % 4 != 0 then len + (4 - len % 4) else len
  }

  function InoAt(s: seq<byte>): word
    requires |s| >= HEADER
  {
    s[0] as nat + 0x100 * s[1] as nat + 0x1_0000 * s[2] as nat + 0x100_0000 * s[3] as nat
  }

  function SizeAt(s: seq<byte>): nat
    requires |s| >= HEADER
  {
    s[4] as nat + 0x100 * s[5] as nat
  }

  /** The bytes start with a whole record. */
  predicate StartsRecord(s: seq<byte>) {
    |s| >= HEADER && Padded(s[6]) <= SizeAt(s) <= |s|
  }

  function FirstEntry(s: seq<byte>): Entry
    requires StartsRecord(s)
  {
    Entry(InoAt(s), SizeAt(s), s[HEADER..HEADER + s[6]], s[7])
  }

  /** Records cover the bytes from end to end. */
  predicate Tiled(s: seq<byte>) {
    s == [] || (StartsRecord(s) && Tiled(s[SizeAt(s)..]))
  }

  function Parse(s: seq<byte>): seq<Entry>
    requires Tiled(s)
  {
    if s == [] then [] else [FirstEntry(s)] + Parse(s[SizeAt(s)..])
  }

  /** What a name stands for. */
  datatype Target = Target(ino: word, kind: byte)

  function TargetOf(e: Entry): Target {
    Target(e.ino, e.kind)
  }

  /** The directory as a map. When a name occurs twice the first record counts. */
  function Names(es: seq<Entry>): map<seq<byte>, Target> {
    if es == [] then map[]
    else if es[0].ino != 0 then Names(es[1..])[es[0].name := TargetOf(es[0])]
    else Names(es[1..])
  }

  predicate Live(e: Entry, name: seq<byte>) {
    e.ino != 0 && e.name == name
  }

  /** No name is in use twice. */
  predicate UniqueNames(es: seq<Entry>) {
    forall i, j :: 0 <= i < j < |es| && es[i].ino != 0 ==> !Live(es[j], es[i].name)
  }

  // ----- records and concatenation

  lemma {:induction false} FirstOfConcat(a: seq<byte>, b: seq<byte>)
    requires a != [] && Tiled(a)
    ensures StartsRecord(a + b) && SizeAt(a + b) == SizeAt(a) && FirstEntry(a + b) == FirstEntry(a)
    ensures (a + b)[SizeAt(a)..] == a[SizeAt(a)..] + b
  {
    assert (a + b)[HEADER..HEADER + a[6]] == a[HEADER..HEADER + a[6]];
  }

  /** Tiled pieces make a tiled whole, whose records are those of the pieces in order. */
  lemma {:induction false} ParseConcat(a: seq<byte>, b: seq<byte>)
    requires Tiled(a) && Tiled(b)
    ensures Tiled(a + b) && Parse(a + b) == Parse(a) + Parse(b)
    decreases |a|
  {
    if a == [] {
      assert a + b == b;
    } else {
      FirstOfConcat(a, b);
      ParseConcat(a[SizeAt(a)..], b);
    }
  }

  /** Exactly one record. */
  predicate OneRecord(s: seq<byte>) {
    StartsRecord(s) && SizeAt(s) == |s|
  }

  lemma ParseOne(s: seq<byte>)
    requires OneRecord(s)
    ensures Tiled(s) && Parse(s) == [FirstEntry(s)]
  {
    assert s[SizeAt(s)..] == [];
  }

  lemma {:induction false} NamesConcat(a: seq<Entry>, b: seq<Entry>)
    ensures Names(a + b) == Names(b) + Names(a)
  {
    if a == [] {
      assert a + b == b;
    } else {
      assert (a + b)[1..] == a[1..] + b;
      NamesConcat(a[1..], b);
    }
  }

  lemma {:induction false} NamesLive(es: seq<Entry>, name: seq<byte>)
    ensures name in Names(es) <==> exists i :: 0 <= i < |es| && Live(es[i], name)
    ensures name in Names(es) ==> Names(es)[name].ino != 0
  {
    if es != [] {
      NamesLive(es[1..], name);
      if exists i :: 0 <= i < |es| && Live(es[i], name) {
        var i :| 0 <= i < |es| && Live(es[i], name);
        if i > 0 { assert es[1..][i - 1] == es[i]; }
      }
      if exists i :: 0 <= i < |es[1..]| && Live(es[1..][i], name) {
        var i :| 0 <= i < |es[1..]| && Live(es[1..][i], name);
        assert Live(es[i + 1], name);
      }
    }
  }

  /** Which record answers for a name: the first live one with that name. */
  lemma {:induction false} FirstAnswers(es: seq<Entry>, i: nat)
    requires i < |es| && es[i].ino != 0 && forall j :: 0 <= j < i ==> !Live(es[j], es[i].name)
    ensures es[i].name in Names(es) && Names(es)[es[i].name] == Target(es[i].ino, es[i].kind)
  {
    if i > 0 {
      assert forall j :: 0 <= j < i - 1 ==> es[1..][j] == es[j + 1];
      FirstAnswers(es[1..], i - 1);
    }
  }

  /** The fields of a record by their places: inode number in bytes 0 to 3, size in 4 and 5, both lowest byte first, length
      of the name in 6, type in 7, the name from 8 on. */
  lemma RecordByNumbers(s: seq<byte>)
    requires StartsRecord(s)
    ensures var e := FirstEntry(s);
            && s[0] == e.ino % 256 && s[1] == e.ino / 256 % 256 && s[2] == e.ino / 65536 % 256 && s[3] == e.ino / 16777216
            && s[4] == e.size % 256 && s[5] == e.size / 256
            && s[6] == |e.name| && s[7] == e.kind && s[8..8 + |e.name|] == e.name
  {
    LowByte(s[4], s[5]);
    assert WordAt(s, 0) == InoAt(s);
    WordBytes(s, 0);
  }

  /** The bytes before record `i`: the sizes of the records before it. */
  function Before(es: seq<Entry>, i: nat): nat
    requires i <= |es|
  {
    if i == 0 then 0 else es[0].size + Before(es[1..], i - 1)
  }

  lemma ParseStep(s: seq<byte>)
    requires Tiled(s) && s != []
    ensures |s| >= HEADER && StartsRecord(s) && 0 < SizeAt(s) <= |s| && Tiled(s[SizeAt(s)..])
    ensures Parse(s) == [FirstEntry(s)] + Parse(s[SizeAt(s)..]) && FirstEntry(s).size == SizeAt(s)
  {
  }

  lemma NoRecords()
    ensures Tiled([]) && Parse([]) == []
  {
  }

  /** Record `i` lies behind those before it, and the last one ends with the bytes. */
  lemma {:induction false} RecordPlaces(s: seq<byte>, i: nat)
    requires Tiled(s) && i <= |Parse(s)|
    ensures Before(Parse(s), i) <= |s| && (Before(Parse(s), i) == |s| <==> i == |Parse(s)|)
    ensures i < |Parse(s)| ==>
              StartsRecord(s[Before(Parse(s), i)..]) && FirstEntry(s[Before(Parse(s), i)..]) == Parse(s)[i]
    decreases |s|
  {
    hide Tiled, Parse, FirstEntry, SizeAt, StartsRecord;
    if s == [] {
      NoRecords();
    } else {
      ParseStep(s);
      var es, rest := Parse(s), s[SizeAt(s)..];
      assert es[1..] == Parse(rest);
      if i == 0 {
        assert s[0..] == s;
      } else {
        RecordPlaces(rest, i - 1);
        assert rest[Before(es[1..], i - 1)..] == s[Before(es, i)..];
      }
    }
  }

  // ----- the three edits

  lemma OnlyOnce(a: seq<Entry>, e: Entry, b: seq<Entry>)
    requires e.ino != 0 && UniqueNames(a + [e] + b)
    ensures e.name !in Names(a) && e.name !in Names(b)
  {
    var es := a + [e] + b;
    assert es[|a|] == e;
    forall i | 0 <= i < |a| ensures !Live(a[i], e.name) { assert es[i] == a[i]; }
    forall i | 0 <= i < |b| ensures !Live(b[i], e.name) { assert es[|a| + 1 + i] == b[i]; }
    NamesLive(a, e.name);
    NamesLive(b, e.name);
  }

  lemma NamesAround(a: seq<Entry>, e: Entry, b: seq<Entry>)
    ensures Names(a + [e] + b) == (if e.ino != 0 then Names(b)[e.name := TargetOf(e)] else Names(b)) + Names(a)
  {
    NamesConcat(a, [e] + b);
    assert a + ([e] + b) == a + [e] + b && ([e] + b)[1..] == b;
  }

  /** Marking one live record as free takes its name out of the map, and nothing else. */
  lemma NamesRemove(a: seq<Entry>, e: Entry, b: seq<Entry>)
    requires e.ino != 0 && UniqueNames(a + [e] + b)
    ensures Names(a + [e.(ino := 0)] + b) == Names(a + [e] + b) - {e.name}
    ensures UniqueNames(a + [e.(ino := 0)] + b)
  {
    OnlyOnce(a, e, b);
    NamesAround(a, e, b);
    NamesAround(a, e.(ino := 0), b);
    StillUnique(a + [e] + b, |a|);
    assert (a + [e] + b)[|a| := e.(ino := 0)] == a + [e.(ino := 0)] + b;
  }

  /** The records behind the first one that is live under the name. */
  function Later(es: seq<Entry>, name: seq<byte>): seq<Entry> {
    if es == [] then [] else if Live(es[0], name) then es[1..] else Later(es[1..], name)
  }

  /** The map after the first record of the name has been marked as free: the next record of the name answers, if there
      is one. */
  function Dropped(es: seq<Entry>, name: seq<byte>): map<seq<byte>, Target> {
    var later := Names(Later(es, name));
    if name in later then Names(es)[name := later[name]] else Names(es) - {name}
  }

  lemma {:induction false} LaterBehind(a: seq<Entry>, e: Entry, b: seq<Entry>)
    requires e.ino != 0 && e.name !in Names(a)
    ensures Later(a + [e] + b, e.name) == b
  {
    if a == [] {
      assert (a + [e] + b)[1..] == b;
    } else {
      assert (a + [e] + b)[1..] == a[1..] + [e] + b;
      LaterBehind(a[1..], e, b);
    }
  }

  /** Marking the first live record of a name as free. */
  lemma NamesDrop(a: seq<Entry>, e: Entry, b: seq<Entry>)
    requires e.ino != 0 && e.name !in Names(a)
    ensures Names(a + [e.(ino := 0)] + b) == Dropped(a + [e] + b, e.name)
  {
    LaterBehind(a, e, b);
    NamesAround(a, e, b);
    NamesAround(a, e.(ino := 0), b);
  }

  lemma StillUnique(es: seq<Entry>, k: nat)
    requires k < |es| && UniqueNames(es)
    ensures UniqueNames(es[k := es[k].(ino := 0)])
  {
  }

  /** The map after a record has been added behind all others: an older record of the name hides it. */
  function Joined(m: map<seq<byte>, Target>, name: seq<byte>, t: Target): map<seq<byte>, Target> {
    if name in m then m else m[name := t]
  }

  /** Appending a record adds its name to the map if it is absent; unique names stay so exactly then.
      Resizing the last record does not matter. */
  lemma NamesAppend(a: seq<Entry>, e: Entry, size: nat, added: Entry)
    requires added.ino != 0
    ensures Names(a + [e.(size := size), added]) == Joined(Names(a + [e]), added.name, TargetOf(added))
    ensures UniqueNames(a + [e.(size := size), added]) <==> UniqueNames(a + [e]) && added.name !in Names(a + [e])
  {
    var e' := e.(size := size);
    NamesConcat(a, [e]);
    NamesConcat(a, [e']);
    assert [e'][1..] == [] && [e][1..] == [];
    if UniqueNames(a + [e]) { SameUnique(a, e, e'); }
    if UniqueNames(a + [e']) { SameUnique(a, e', e); }
    assert a + [e', added] == (a + [e']) + [added];
    NamesExtend(a + [e'], added);
  }

  lemma SameUnique(a: seq<Entry>, e: Entry, e': Entry)
    requires UniqueNames(a + [e]) && e'.name == e.name && e'.ino == e.ino
    ensures UniqueNames(a + [e'])
  {
    var before, after := a + [e], a + [e'];
    forall i, j | 0 <= i < j < |after| && after[i].ino != 0 ensures !Live(after[j], after[i].name) {
      assert before[i].name == after[i].name && before[i].ino == after[i].ino;
      assert before[j].name == after[j].name && before[j].ino == after[j].ino;
    }
  }

  lemma PrefixUnique(a: seq<Entry>, e: Entry)
    requires UniqueNames(a + [e])
    ensures UniqueNames(a)
  {
    var after := a + [e];
    forall i, j | 0 <= i < j < |a| && a[i].ino != 0 ensures !Live(a[j], a[i].name) {
      assert after[i] == a[i] && after[j] == a[j];
    }
  }

  lemma NamesExtend(a: seq<Entry>, added: Entry)
    requires added.ino != 0
    ensures Names(a + [added]) == Joined(Names(a), added.name, TargetOf(added))
    ensures UniqueNames(a + [added]) <==> UniqueNames(a) && added.name !in Names(a)
  {
    NamesConcat(a, [added]);
    assert [added][1..] == [];
    NamesLive(a, added.name);
    var after := a + [added];
    assert after[|a|] == added && Live(added, added.name);
    if UniqueNames(after) {
      PrefixUnique(a, added);
    }
    if !UniqueNames(a) {
    } else if added.name !in Names(a) {
      forall i, j | 0 <= i < j < |after| && after[i].ino != 0 ensures !Live(after[j], after[i].name) {
        assert Live(a[i], a[i].name);
      }
    } else {
      var i :| 0 <= i < |a| && Live(a[i], added.name);
      assert after[i] == a[i];
    }
  }

  /** The length byte bounds the names of a chain of records. */
  lemma {:induction false} NamesShort(s: seq<byte>)
    requires Tiled(s)
    ensures forall i :: 0 <= i < |Parse(s)| ==> |Parse(s)[i].name| < 0x100
    decreases |s|
  {
    if s != [] {
      NamesShort(s[SizeAt(s)..]);
      assert |FirstEntry(s).name| < 0x100;
    }
  }

  // ----- one record inside a block

  /** The bytes of the first record. */
  function FirstRecord(r: seq<byte>): seq<byte>
    requires StartsRecord(r)
  {
    r[..SizeAt(r)]
  }

  lemma FirstRecordIs(r: seq<byte>)
    requires StartsRecord(r)
    ensures OneRecord(FirstRecord(r)) && FirstEntry(FirstRecord(r)) == FirstEntry(r)
    ensures r == FirstRecord(r) + r[SizeAt(r)..]
  {
    var rec := FirstRecord(r);
    assert rec[HEADER..HEADER + rec[6]] == r[HEADER..HEADER + r[6]];
  }

  lemma ParseAround(a: seq<byte>, rec: seq<byte>, c: seq<byte>)
    requires Tiled(a) && OneRecord(rec) && Tiled(c)
    ensures Tiled(a + rec) && Parse(a + rec) == Parse(a) + [FirstEntry(rec)]
    ensures Tiled(a + rec + c) && Parse(a + rec + c) == Parse(a) + [FirstEntry(rec)] + Parse(c)
  {
    hide Tiled, Parse, FirstEntry, OneRecord;
    ParseOne(rec);
    ParseConcat(a, rec);
    ParseConcat(a + rec, c);
  }

  lemma TiledFirst(s: seq<byte>)
    requires Tiled(s) && s != []
    ensures StartsRecord(s) && 0 < SizeAt(s) <= |s| && Tiled(s[SizeAt(s)..])
  {
  }

  /** A block with one record singled out at offset `p`. */
  lemma RecordAt(b: seq<byte>, p: nat)
    requires p < |b| && Tiled(b[..p]) && Tiled(b[p..])
    ensures |b[p..]| >= HEADER && StartsRecord(b[p..]) && p < p + SizeAt(b[p..]) <= |b|
    ensures OneRecord(b[p..p + SizeAt(b[p..])]) && FirstEntry(b[p..p + SizeAt(b[p..])]) == FirstEntry(b[p..])
    ensures Tiled(b[p + SizeAt(b[p..])..])
    ensures b == b[..p] + b[p..p + SizeAt(b[p..])] + b[p + SizeAt(b[p..])..]
    ensures b[..p + SizeAt(b[p..])] == b[..p] + b[p..p + SizeAt(b[p..])]
  {
    hide Tiled, OneRecord, FirstEntry, SizeAt, Padded;
    var r := b[p..];
    TiledFirst(r);
    FirstRecordIs(r);
    var q := p + SizeAt(r);
    assert b[p..q] == FirstRecord(r);
    assert r[SizeAt(r)..] == b[q..];
  }

  /** Going on to the next record. */
  lemma StepRecord(b: seq<byte>, p: nat)
    requires p < |b| && Tiled(b[..p]) && Tiled(b[p..])
    ensures StartsRecord(b[p..]) && p < p + SizeAt(b[p..]) <= |b|
    ensures Tiled(b[..p + SizeAt(b[p..])]) && Tiled(b[p + SizeAt(b[p..])..])
    ensures Parse(b[..p + SizeAt(b[p..])]) == Parse(b[..p]) + [FirstEntry(b[p..])]
  {
    hide Tiled, Parse, FirstEntry, OneRecord, StartsRecord, SizeAt;
    RecordAt(b, p);
    var q := p + SizeAt(b[p..]);
    ParseAround(b[..p], b[p..q], b[q..]);
  }

  // ----- marking a record as free

  lemma ZeroRecord(rec: seq<byte>)
    requires OneRecord(rec)
    ensures OneRecord([0, 0, 0, 0] + rec[4..])
    ensures FirstEntry([0, 0, 0, 0] + rec[4..]) == FirstEntry(rec).(ino := 0)
  {
    var r := [0, 0, 0, 0] + rec[4..];
    assert forall j :: 4 <= j < |rec| ==> r[j] == rec[j];
    assert InoAt(r) == 0;
    assert r[HEADER..HEADER + r[6]] == rec[HEADER..HEADER + rec[6]];
  }

  /** The block with the inode number of the record at `p` set to zero. */
  function ZeroIno(b: seq<byte>, p: nat): (r: seq<byte>)
    requires p + HEADER <= |b|
    ensures |r| == |b|
  {
    b[..p] + [0, 0, 0, 0] + b[p + 4..]
  }

  lemma ReplaceFour(b: seq<byte>, p: nat, q: nat, z: seq<byte>)
    requires p + 4 <= q <= |b| && |z| == 4
    ensures b[..p] + (z + b[p..q][4..]) + b[q..] == b[..p] + z + b[p + 4..]
  {
  }

  lemma ZeroInoParse(b: seq<byte>, p: nat)
    requires p < |b| && Tiled(b[..p]) && Tiled(b[p..])
    ensures p + HEADER <= |b| && StartsRecord(b[p..]) && p + SizeAt(b[p..]) <= |b| && Tiled(b[p + SizeAt(b[p..])..])
    ensures Tiled(b) && Parse(b) == Parse(b[..p]) + [FirstEntry(b[p..])] + Parse(b[p + SizeAt(b[p..])..])
    ensures Tiled(ZeroIno(b, p))
    ensures Parse(ZeroIno(b, p)) == Parse(b[..p]) + [FirstEntry(b[p..]).(ino := 0)] + Parse(b[p + SizeAt(b[p..])..])
  {
    hide Tiled, Parse, FirstEntry, SizeAt, InoAt;
    RecordAt(b, p);
    var q := p + SizeAt(b[p..]);
    var rec := b[p..q];
    assert |rec| >= HEADER;
    hide OneRecord, StartsRecord;
    ParseAround(b[..p], rec, b[q..]);
    ZeroRecord(rec);
    ParseAround(b[..p], [0, 0, 0, 0] + rec[4..], b[q..]);
    ReplaceFour(b, p, q, [0, 0, 0, 0]);
  }

  // ----- adding a record

  /** A header with the given fields and the bytes behind it. */
  function RecordOf(ino: word, size: nat, len: byte, kind: byte, tail: seq<byte>): (r: seq<byte>)
    requires size < 0x1_0000
    ensures |r| == HEADER + |tail|
  {
    [ino % 0x100, ino / 0x100 % 0x100, ino / 0x1_0000 % 0x100, ino / 0x100_0000,
     size % 0x100, size / 0x100, len, kind] + tail
  }

  lemma RecordOfParse(ino: word, size: nat, len: byte, kind: byte, tail: seq<byte>)
    requires size < 0x1_0000 && size == HEADER + |tail| && Padded(len) <= size
    ensures var r := RecordOf(ino, size, len, kind, tail);
            OneRecord(r) && FirstEntry(r) == Entry(ino, size, tail[..len], kind)
  {
    var r := RecordOf(ino, size, len, kind, tail);
    LittleEndian(ino);
    assert r[6] == len && SizeAt(r) == size && InoAt(r) == ino;
    assert r[HEADER..HEADER + len] == tail[..len];
  }

  /** A record with the given fields, `size` bytes long; what lies behind the name is left as it was. */
  function Record(ino: word, size: nat, name: seq<byte>, kind: byte, rest: seq<byte>): (r: seq<byte>)
    requires size < 0x1_0000
    ensures |r| == HEADER + |name| + |rest|
  {
    RecordOf(ino, size, |name| % 0x100, kind, name + rest)
  }

  /** The length byte wraps: only the first `|name| % 256` bytes of the name are kept. */
  function Stored(name: seq<byte>): seq<byte> {
    name[..|name| % 0x100]
  }

  lemma PaddedMono(m: nat, n: nat)
    requires m <= n
    ensures Padded(m) <= Padded(n)
  {
  }

  lemma RecordParse(ino: word, size: nat, name: seq<byte>, kind: byte, rest: seq<byte>)
    requires size < 0x1_0000 && size == HEADER + |name| + |rest| && Padded(|name|) <= size
    ensures var r := Record(ino, size, name, kind, rest);
            OneRecord(r) && FirstEntry(r) == Entry(ino, size, Stored(name), kind)
  {
    var k: byte := |name| % 0x100;
    PaddedMono(k, |name|);
    RecordOfParse(ino, size, k, kind, name + rest);
    assert (name + rest)[..k] == name[..k];
  }

  /** A block of its own for one record: header and name are copied to the start of a block of zeros, and what
      does not fit is not part of the block. */
  function BlockFor(ino: word, size: nat, name: seq<byte>, kind: byte): (r: seq<byte>)
    requires HEADER <= size < 0x1_0000
    ensures |r| == size
  {
    RecordOf(ino, size, |name| % 0x100, kind, (name + Zeros(size))[..size - HEADER])
  }

  lemma BlockForParse(ino: word, size: nat, name: seq<byte>, kind: byte)
    requires 0x400 <= size < 0x1_0000
    ensures var r := BlockFor(ino, size, name, kind);
            OneRecord(r) && FirstEntry(r) == Entry(ino, size, Stored(name), kind) && Padded(|Stored(name)|) < size
  {
    var k: byte := |name| % 0x100;
    var tail := (name + Zeros(size))[..size - HEADER];
    RecordOfParse(ino, size, k, kind, tail);
    assert tail[..k] == name[..k];
  }

  /** A record cut down to the space it needs. */
  function Shrunk(rec: seq<byte>): seq<byte>
    requires OneRecord(rec) && |rec| < 0x1_0000
  {
    var n := Padded(rec[6]);
    rec[..4] + [n % 0x100, n / 0x100] + rec[6..n]
  }

  lemma ShrunkIs(rec: seq<byte>)
    requires OneRecord(rec) && |rec| < 0x1_0000
    ensures |Shrunk(rec)| == Padded(rec[6]) && OneRecord(Shrunk(rec))
    ensures FirstEntry(Shrunk(rec)) == FirstEntry(rec).(size := Padded(rec[6]))
  {
    var r := Shrunk(rec);
    assert forall j :: 0 <= j < |r| && j != 4 && j != 5 ==> r[j] == rec[j];
    assert SizeAt(r) == Padded(rec[6]) && InoAt(r) == InoAt(rec);
    assert r[HEADER..HEADER + r[6]] == rec[HEADER..HEADER + rec[6]];
  }

  /** The last record is cut down to what it needs and a new one takes the rest of the block. */
  lemma ShrinkParse(b: seq<byte>, p: nat, added: seq<byte>)
    requires p < |b| < 0x1_0000 && Tiled(b[..p]) && Tiled(b[p..]) && OneRecord(b[p..]) && OneRecord(added)
    ensures Tiled(b) && Parse(b) == Parse(b[..p]) + [FirstEntry(b[p..])]
    ensures Tiled(b[..p] + Shrunk(b[p..]) + added)
    ensures Parse(b[..p] + Shrunk(b[p..]) + added) ==
              Parse(b[..p]) + [FirstEntry(b[p..]).(size := Padded(b[p..][6])), FirstEntry(added)]
  {
    hide Tiled, Parse, FirstEntry, SizeAt, InoAt, Shrunk;
    ShrunkIs(b[p..]);
    ParseOne(added);
    hide OneRecord, StartsRecord;
    ParseAround(b[..p], b[p..], added);
    assert b[..p] + b[p..] == b;
    ParseAround(b[..p], Shrunk(b[p..]), added);
  }

  /** A directory with one name, and that name with 256 more bytes behind it: the long name is not there, the record
      that is added for it carries the short one, and there are two of them. */
  lemma LongNameCollides(short: seq<byte>, tail: seq<byte>, one: word, two: word, kind: byte)
    requires |short| < 0x100 && |tail| == 0x100 && one != 0 && two != 0
    ensures var es := [Entry(one, 1024, short, kind)];
            && UniqueNames(es) && short + tail !in Names(es) && Stored(short + tail) == short
            && !UniqueNames(es + [Entry(two, 1024, Stored(short + tail), kind)])
  {
    var long := short + tail;
    var es := [Entry(one, 1024, short, kind)];
    assert Stored(long) == long[..|short|] == short;
    NamesLive(es, short);
    NamesLive(es, long);
    assert Live(es[0], short);
    NamesExtend(es, Entry(two, 1024, Stored(long), kind));
  }

  /** "foo", and "foo" followed by 256 times "a". */
  lemma FooCollides()
    ensures var foo: seq<byte> := [102, 111, 111];
            var long := foo + seq(0x100, _ => 97);
            var es := [Entry(11, 1024, foo, 1)];
            && UniqueNames(es) && long !in Names(es) && Stored(long) == foo
            && !UniqueNames(es + [Entry(12, 1024, Stored(long), 1)])
  {
    LongNameCollides([102, 111, 111], seq(0x100, _ => 97), 11, 12, 1);
  }
}
