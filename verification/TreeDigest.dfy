/**
 The digest of a directory tree: the walk, the checks, the sort and the length-framed byte stream
 that the daemon feeds to its hash, with a decoder that shows the stream to be uniquely decodable.

 The hash itself is taken to be injective: a digest is the stream that was hashed.
 */
module TreeDigest {
  import opened Wrappers

  type Byte = x: int | 0 <= x < 256
  type Bytes = seq<Byte>

  // ----- Fixed-width integers ---------------------------------------------------------------

  /** Big-endian representation in `width` bytes; like the Go conversion it keeps the low bytes. */
  function BigEndian(n: nat, width: nat): (s: Bytes)
    ensures |s| == width
  {
    if width == 0 then [] else BigEndian(n / 256, width - 1) + [n % 256]
  }

  function FromBigEndian(s: Bytes): nat {
    if s == [] then 0 else 256 * FromBigEndian(s[..|s| - 1]) + s[|s| - 1]
  }

  function Power256(width: nat): nat {
    if width == 0 then 1 else 256 * Power256(width - 1)
  }

  lemma {:induction false} BigEndianRoundTrip(n: nat, width: nat)
    requires n < Power256(width)
    ensures FromBigEndian(BigEndian(n, width)) == n
  {
    if width > 0 {
      BigEndianRoundTrip(n / 256, width - 1);
      var s := BigEndian(n, width);
      assert s[..|s| - 1] == BigEndian(n / 256, width - 1);
    }
  }

  const MAX32: nat := 0x1_0000_0000
  const MAX64: nat := 0x1_0000_0000_0000_0000

  lemma Widths()
    ensures Power256(4) == MAX32 && Power256(8) == MAX64
  {
    assert Power256(3) == 256 * 256 * 256;
    assert Power256(6) == 256 * 256 * 256 * Power256(3);
    assert Power256(8) == 256 * 256 * Power256(6);
  }

  // ----- Entries and their encoding ---------------------------------------------------------

  /** One record of the digest stream. */
  datatype Entry =
    | Directory(path: Bytes, mode: nat)
    | File(path: Bytes, mode: nat, contents: Bytes)
  {
    /** Path length and file size fit 64 bits and permission bits fit 32, as they do in Go. */
    ghost predicate Representable() {
      && |path| < MAX64
      && mode < MAX32
      && (File? ==> |contents| < MAX64)
    }
  }

  const DIRECTORY_TAG: Byte := 100
  const FILE_TAG: Byte := 102

  function Ascii(s: string): Bytes {
    seq(|s|, i requires 0 <= i < |s| => s[i] as int % 256)
  }

  const HEADER: Bytes := Ascii("unity-workspace-storage-tree-v2\0")

  function Field(value: Bytes): Bytes {
    BigEndian(|value|, 8) + value
  }

  function EncodeEntry(e: Entry): Bytes {
    match e
    case Directory(path, mode) => [DIRECTORY_TAG] + Field(path) + BigEndian(mode, 4)
    case File(path, mode, contents) => [FILE_TAG] + Field(path) + BigEndian(mode, 4) + Field(contents)
  }

  function EncodeAll(es: seq<Entry>): Bytes {
    if es == [] then [] else EncodeEntry(es[0]) + EncodeAll(es[1..])
  }

  function Stream(es: seq<Entry>): Bytes {
    HEADER + EncodeAll(es)
  }

  // ----- Decoding ---------------------------------------------------------------------------

  function DecodeField(s: Bytes): (r: Option<(Bytes, Bytes)>)
    ensures r.Some? ==> |r.value.1| < |s|
  {
    if |s| < 8 then None
    else
      var n := FromBigEndian(s[..8]);
      if |s| < 8 + n then None else Some((s[8..8 + n], s[8 + n..]))
  }

  function DecodeEntry(s: Bytes): (r: Option<(Entry, Bytes)>)
    ensures r.Some? ==> |r.value.1| < |s|
  {
    if s == [] || (s[0] != DIRECTORY_TAG && s[0] != FILE_TAG) then None
    else
      match DecodeField(s[1..])
      case None => None
      case Some((path, rest)) =>
        if |rest| < 4 then None
        else
          var mode := FromBigEndian(rest[..4]);
          if s[0] == DIRECTORY_TAG then Some((Directory(path, mode), rest[4..]))
          else
            match DecodeField(rest[4..])
            case None => None
            case Some((contents, rest')) => Some((File(path, mode, contents), rest'))
  }

  function DecodeAll(s: Bytes): Option<seq<Entry>>
    decreases |s|
  {
    if s == [] then Some([])
    else
      match DecodeEntry(s)
      case None => None
      case Some((e, rest)) =>
        match DecodeAll(rest)
        case None => None
        case Some(es) => Some([e] + es)
  }

  function DecodeStream(s: Bytes): Option<seq<Entry>> {
    if HEADER <= s then DecodeAll(s[|HEADER|..]) else None
  }

  lemma FieldRoundTrip(value: Bytes, tail: Bytes)
    requires |value| < MAX64
    ensures DecodeField(Field(value) + tail) == Some((value, tail))
  {
    Widths();
    BigEndianRoundTrip(|value|, 8);
    var s := Field(value) + tail;
    assert s[..8] == BigEndian(|value|, 8);
    assert s[8..8 + |value|] == value;
    assert s[8 + |value|..] == tail;
  }

  lemma HeadRoundTrip(tag: Byte, path: Bytes, mode: nat, after: Bytes)
    requires |path| < MAX64 && mode < MAX32
    ensures
      var s := [tag] + Field(path) + BigEndian(mode, 4) + after;
      var field := DecodeField(s[1..]);
      && field.Some? && field.value.0 == path
      && |field.value.1| >= 4
      && FromBigEndian(field.value.1[..4]) == mode
      && field.value.1[4..] == after
  {
    Widths();
    BigEndianRoundTrip(mode, 4);
    var rest := BigEndian(mode, 4) + after;
    assert ([tag] + Field(path) + BigEndian(mode, 4) + after)[1..] == Field(path) + rest;
    FieldRoundTrip(path, rest);
    assert rest[..4] == BigEndian(mode, 4) && rest[4..] == after;
  }

  lemma EntryRoundTrip(e: Entry, tail: Bytes)
    requires e.Representable()
    ensures DecodeEntry(EncodeEntry(e) + tail) == Some((e, tail))
  {
    match e
    case Directory(path, mode) =>
      HeadRoundTrip(DIRECTORY_TAG, path, mode, tail);
    case File(path, mode, contents) =>
      var after := Field(contents) + tail;
      assert EncodeEntry(e) + tail == [FILE_TAG] + Field(path) + BigEndian(mode, 4) + after;
      HeadRoundTrip(FILE_TAG, path, mode, after);
      FieldRoundTrip(contents, tail);
  }

  lemma {:induction false} AllRoundTrip(es: seq<Entry>)
    requires forall e | e in es :: e.Representable()
    ensures DecodeAll(EncodeAll(es)) == Some(es)
  {
    if es != [] {
      AllRoundTrip(es[1..]);
      EntryRoundTrip(es[0], EncodeAll(es[1..]));
      assert [es[0]] + es[1..] == es;
    }
  }

  /** Decoding the hashed stream gives back the entries: path, kind, mode and contents. */
  lemma StreamRoundTrip(es: seq<Entry>)
    requires forall e | e in es :: e.Representable()
    ensures DecodeStream(Stream(es)) == Some(es)
  {
    AllRoundTrip(es);
    assert Stream(es)[|HEADER|..] == EncodeAll(es);
  }

  // ----- Order of the entries ---------------------------------------------------------------

  /** Go compares strings bytewise. */
  predicate Less(a: Bytes, b: Bytes) {
    if b == [] then false
    else if a == [] then true
    else a[0] < b[0] || (a[0] == b[0] && Less(a[1..], b[1..]))
  }

  lemma {:induction false} LessTotal(a: Bytes, b: Bytes)
    ensures !(Less(a, b) && Less(b, a))
    ensures !Less(a, b) && !Less(b, a) ==> a == b
  {
    if a != [] && b != [] {
      LessTotal(a[1..], b[1..]);
      assert a == [a[0]] + a[1..] && b == [b[0]] + b[1..];
    }
  }

  /** The first byte that differs decides, and a beginning comes first. */
  lemma {:induction false} LessBytewise(prefix: Bytes, x: Bytes, y: Bytes)
    requires x != []
    ensures Less(prefix, prefix + x) && !Less(prefix + x, prefix)
    ensures y != [] && x[0] < y[0] ==> Less(prefix + x, prefix + y) && !Less(prefix + y, prefix + x)
  {
    if prefix != [] {
      LessBytewise(prefix[1..], x, y);
      assert (prefix + x)[1..] == prefix[1..] + x && (prefix + y)[1..] == prefix[1..] + y;
    }
  }

  lemma {:induction false} NotLessTransitive(a: Bytes, b: Bytes, c: Bytes)
    requires !Less(b, a) && !Less(c, b)
    ensures !Less(c, a)
  {
    if a != [] && b != [] && c != [] {
      if a[0] == b[0] == c[0] {
        NotLessTransitive(a[1..], b[1..], c[1..]);
      }
    }
  }

  ghost predicate Ordered(es: seq<Entry>) {
    forall i, j | 0 <= i < j < |es| :: !Less(es[j].path, es[i].path)
  }

  /** A path names one entry. */
  ghost predicate OnePerPath(es: seq<Entry>) {
    forall e, f | e in es && f in es :: e.path == f.path ==> e == f
  }

  /** The library sort: insertion of each entry before the first one that is not smaller. */
  function Insert(e: Entry, es: seq<Entry>): (r: seq<Entry>)
    ensures multiset(r) == multiset(es) + multiset{e}
  {
    if es == [] then [e]
    else if !Less(es[0].path, e.path) then [e] + es
    else
      assert es == [es[0]] + es[1..];
      [es[0]] + Insert(e, es[1..])
  }

  lemma {:induction false} InsertOrdered(e: Entry, es: seq<Entry>)
    requires Ordered(es)
    ensures Ordered(Insert(e, es))
  {
    if es == [] {
    } else if !Less(es[0].path, e.path) {
      forall i | 0 <= i < |es| ensures !Less(es[i].path, e.path) {
        if i > 0 { NotLessTransitive(e.path, es[0].path, es[i].path); }
      }
    } else {
      InsertOrdered(e, es[1..]);
      var tail := Insert(e, es[1..]);
      forall i | 0 <= i < |tail| ensures !Less(tail[i].path, es[0].path) {
        assert tail[i] in multiset(tail);
        assert tail[i] == e || tail[i] in es[1..];
        LessTotal(es[0].path, e.path);
      }
    }
  }

  function SortByPath(es: seq<Entry>): (r: seq<Entry>)
    ensures multiset(r) == multiset(es)
  {
    if es == [] then [] else
      assert es == [es[0]] + es[1..];
      Insert(es[0], SortByPath(es[1..]))
  }

  lemma {:induction false} SortedIsOrdered(es: seq<Entry>)
    ensures Ordered(SortByPath(es))
  {
    if es != [] {
      SortedIsOrdered(es[1..]);
      InsertOrdered(es[0], SortByPath(es[1..]));
    }
  }

  lemma SameMembers<T>(a: seq<T>, b: seq<T>)
    requires multiset(a) == multiset(b)
    ensures forall x :: x in a <==> x in b
    ensures |a| == |b|
  {
    assert forall x :: x in a <==> x in multiset(a);
    assert forall x :: x in b <==> x in multiset(b);
    assert |a| == |multiset(a)| == |multiset(b)| == |b|;
  }

  lemma TailMultiset<T>(s: seq<T>)
    requires s != []
    ensures multiset(s[1..]) == multiset(s) - multiset{s[0]}
  {
    assert s == [s[0]] + s[1..];
  }

  lemma LeastFirst(a: seq<Entry>, b: seq<Entry>)
    requires a != [] && b != [] && multiset(a) == multiset(b)
    requires Ordered(b)
    ensures !Less(a[0].path, b[0].path)
  {
    SameMembers(a, b);
    assert a[0] in b;
    var j :| 0 <= j < |b| && b[j] == a[0];
    LessTotal(a[0].path, a[0].path);
  }

  /** Any two orderings of the same entries with distinct paths are equal, so the sort algorithm is immaterial. */
  lemma {:induction false} OrderingIsUnique(a: seq<Entry>, b: seq<Entry>)
    requires multiset(a) == multiset(b)
    requires Ordered(a) && Ordered(b) && OnePerPath(a)
    ensures a == b
  {
    SameMembers(a, b);
    if a != [] {
      LeastFirst(a, b);
      LeastFirst(b, a);
      LessTotal(a[0].path, b[0].path);
      assert b[0] in a;
      TailMultiset(a);
      TailMultiset(b);
      assert OnePerPath(a[1..]);
      OrderingIsUnique(a[1..], b[1..]);
      assert a == [a[0]] + a[1..] && b == [b[0]] + b[1..];
    }
  }

  // ----- Walking a tree ---------------------------------------------------------------------

  datatype Kind = DirectoryKind | RegularKind | SymlinkKind | SpecialKind

  /** What the walk sees at one path relative to the root; the root itself is ".". */
  datatype Visit = Visit(path: Bytes, kind: Kind, mode: nat, contents: Bytes) {
    function AsEntry(): Entry {
      if kind.DirectoryKind? then Directory(path, mode) else File(path, mode, contents)
    }
  }

  const ROOT: Bytes := Ascii(".")
  const STORAGE_MARKER: Bytes := Ascii(".testplay-storage-owner")
  const WORKSPACE_MARKER: Bytes := Ascii(".unity-workspace-storage-owner.json")
  const SLASH: Byte := 47

  /** Last element of a slash-separated path. */
  function BaseName(path: Bytes): Bytes {
    if path == [] || path[|path| - 1] == SLASH then [] else BaseName(path[..|path| - 1]) + [path[|path| - 1]]
  }

  /** Symbolic links, special files and the reserved marker names below the root are refused. */
  predicate Allowed(v: Visit) {
    && (v.kind.DirectoryKind? || v.kind.RegularKind?)
    && (v.path == ROOT || (BaseName(v.path) != STORAGE_MARKER && BaseName(v.path) != WORKSPACE_MARKER))
  }

  function Entries(walk: seq<Visit>): (es: seq<Entry>)
    ensures |es| == |walk| && forall i | 0 <= i < |walk| :: es[i] == walk[i].AsEntry()
  {
    seq(|walk|, i requires 0 <= i < |walk| => walk[i].AsEntry())
  }

  function LogicalBytes(es: seq<Entry>): nat {
    if es == [] then 0 else LogicalBytes(es[..|es| - 1]) + (if es[|es| - 1].File? then |es[|es| - 1].contents| else 0)
  }

  datatype Digest = Digest(stream: Bytes, logicalBytes: nat)

  /** What `DigestTree` answers: a digest, or nothing when an entry is refused. */
  function DigestOf(walk: seq<Visit>): Option<Digest> {
    if forall v | v in walk :: Allowed(v) then
      var es := SortByPath(Entries(walk));
      Some(Digest(Stream(es), LogicalBytes(es)))
    else None
  }

  lemma {:induction false} EncodeAppend(es: seq<Entry>, e: Entry)
    ensures EncodeAll(es + [e]) == EncodeAll(es) + EncodeEntry(e)
  {
    hide EncodeEntry;
    if es == [] {
      assert EncodeAll([e]) == EncodeEntry(e) + EncodeAll([]);
      assert es + [e] == [e];
    } else {
      EncodeAppend(es[1..], e);
      assert (es + [e])[1..] == es[1..] + [e];
    }
  }

  /** The walk callback: collects the entries, or stops at the first refused one. */
  method Collect(walk: seq<Visit>) returns (r: Option<seq<Entry>>)
    ensures r == if forall v | v in walk :: Allowed(v) then Some(Entries(walk)) else None
  {
    var collected: seq<Entry> := [];
    for i := 0 to |walk|
      invariant collected == Entries(walk[..i])
      invariant forall j | 0 <= j < i :: Allowed(walk[j])
    {
      if !Allowed(walk[i]) {
        assert walk[i] in walk;
        return None;
      }
      collected := collected + [walk[i].AsEntry()];
    }
    assert walk[..|walk|] == walk;
    r := Some(collected);
  }

  /** Writes one entry to the hash, piece by piece. */
  method WriteEntry(hashed: Bytes, e: Entry) returns (r: Bytes)
    ensures r == hashed + EncodeEntry(e)
  {
    r := hashed + [if e.Directory? then DIRECTORY_TAG else FILE_TAG] + Field(e.path) + BigEndian(e.mode, 4);
    assert r == hashed + ([if e.Directory? then DIRECTORY_TAG else FILE_TAG] + Field(e.path) + BigEndian(e.mode, 4));
    if e.File? {
      r := r + Field(e.contents);
    }
  }

  lemma StreamAppend(es: seq<Entry>, e: Entry)
    ensures Stream(es + [e]) == Stream(es) + EncodeEntry(e)
  {
    EncodeAppend(es, e);
  }

  lemma LogicalBytesAppend(es: seq<Entry>, e: Entry)
    ensures LogicalBytes(es + [e]) == LogicalBytes(es) + if e.File? then |e.contents| else 0
  {
    assert (es + [e])[..|es|] == es;
  }

  /** The hashing loop over the sorted entries. */
  method WriteEntries(sorted: seq<Entry>) returns (hashed: Bytes, logical: nat)
    ensures hashed == Stream(sorted) && logical == LogicalBytes(sorted)
  {
    assert Stream(sorted[..0]) == HEADER && LogicalBytes(sorted[..0]) == 0;
    hide Stream, LogicalBytes, EncodeEntry, EncodeAll, HEADER;
    hashed, logical := HEADER, 0;
    for i := 0 to |sorted|
      invariant hashed == Stream(sorted[..i])
      invariant logical == LogicalBytes(sorted[..i])
    {
      var e := sorted[i];
      StreamAppend(sorted[..i], e);
      LogicalBytesAppend(sorted[..i], e);
      assert sorted[..i + 1] == sorted[..i] + [e];
      if e.File? {
        logical := logical + |e.contents|;
      }
      hashed := WriteEntry(hashed, e);
    }
    assert sorted[..|sorted|] == sorted;
  }

  /** The last element of the path is this name. */
  ghost predicate Named(path: Bytes, name: Bytes) {
    path == name || (|path| > |name| && path[|path| - |name| - 1..] == [47] + name)
  }

  lemma {:induction false} BaseSplits(path: Bytes)
    ensures
      var n := |path| - |BaseName(path)|;
      0 <= n && path[n..] == BaseName(path) && SLASH !in BaseName(path) && (n > 0 ==> path[n - 1] == SLASH)
  {
    if path != [] && path[|path| - 1] != SLASH {
      var n := |path| - 1;
      BaseSplits(path[..n]);
      assert path == path[..n] + [path[n]];
    }
  }

  /** There is one place behind the last slash. */
  lemma OneSplit(path: Bytes, n: nat, m: nat)
    requires n <= |path| && (forall i | n <= i < |path| :: path[i] != SLASH) && (n > 0 ==> path[n - 1] == SLASH)
    requires m <= |path| && (forall i | m <= i < |path| :: path[i] != SLASH) && (m > 0 ==> path[m - 1] == SLASH)
    ensures n == m
  {
  }

  lemma BaseIsLast(path: Bytes, name: Bytes)
    requires SLASH !in name
    ensures BaseName(path) == name <==> Named(path, name)
  {
    BaseSplits(path);
    hide BaseName;
    var n := |path| - |BaseName(path)|;
    assert n > 0 ==> path[n - 1..] == [path[n - 1]] + path[n..];
    if Named(path, name) {
      var m := |path| - |name|;
      assert path[m..] == name && (m > 0 ==> path[m - 1] == SLASH) by {
        assert path != name ==> path[m - 1..][1..] == ([47] + name)[1..] && path[m - 1..][0] == 47;
      }
      assert forall i | n <= i < |path| :: path[i] == path[n..][i - n];
      assert forall i | m <= i < |path| :: path[i] == path[m..][i - m];
      OneSplit(path, n, m);
    }
  }

  lemma AllowedNames(walk: seq<Visit>)
    ensures (forall v | v in walk :: Allowed(v)) <==> forall v | v in walk ::
              && v.kind != SymlinkKind && v.kind != SpecialKind
              && (v.path != Ascii(".") ==>
                    !Named(v.path, Ascii(".testplay-storage-owner")) && !Named(v.path, Ascii(".unity-workspace-storage-owner.json")))
  {
    forall v | v in walk
      ensures Allowed(v) <==>
                && v.kind != SymlinkKind && v.kind != SpecialKind
                && (v.path != Ascii(".") ==>
                      !Named(v.path, Ascii(".testplay-storage-owner")) && !Named(v.path, Ascii(".unity-workspace-storage-owner.json")))
    {
      MarkersHaveNoSlash();
      BaseIsLast(v.path, STORAGE_MARKER);
      BaseIsLast(v.path, WORKSPACE_MARKER);
    }
  }

  lemma MarkersHaveNoSlash()
    ensures SLASH !in STORAGE_MARKER && SLASH !in WORKSPACE_MARKER
  {
    NoSlash(".testplay-storage-owner");
    NoSlash(".unity-workspace-storage-owner.json");
  }

  lemma NoSlash(name: string)
    requires forall i | 0 <= i < |name| :: name[i] != '/' && name[i] < 128 as char
    ensures SLASH !in Ascii(name)
  {
    forall i | 0 <= i < |name| ensures Ascii(name)[i] != SLASH {
      assert name[i] != '/' && name[i] < 128 as char;
    }
  }

  /** The sizes of the regular files that a walk meets. */
  ghost function SizeOf(walk: seq<Visit>): nat {
    if walk == [] then 0 else (if walk[0].kind == RegularKind then |walk[0].contents| else 0) + SizeOf(walk[1..])
  }

  lemma SizesAgree(walk: seq<Visit>)
    requires forall v | v in walk :: Allowed(v)
    ensures LogicalBytes(SortByPath(Entries(walk))) == SizeOf(walk)
  {
    SortingKeepsSize(Entries(walk));
    EntriesSize(walk);
  }

  lemma {:induction false} SortingKeepsSize(es: seq<Entry>)
    ensures LogicalBytes(SortByPath(es)) == LogicalBytes(es)
  {
    if es != [] {
      SortingKeepsSize(es[1..]);
      InsertAddsSize(es[0], SortByPath(es[1..]));
      OneInFront(es[0], es[1..]);
      assert es == [es[0]] + es[1..];
    }
  }

  lemma {:induction false} EntriesSize(walk: seq<Visit>)
    requires forall v | v in walk :: v.kind == DirectoryKind || v.kind == RegularKind
    ensures LogicalBytes(Entries(walk)) == SizeOf(walk)
  {
    if walk != [] {
      assert walk[0] in walk;
      EntriesSize(walk[1..]);
      OneInFront(walk[0].AsEntry(), Entries(walk[1..]));
      assert Entries(walk) == [walk[0].AsEntry()] + Entries(walk[1..]);
    }
  }

  lemma {:induction false} InsertAddsSize(e: Entry, es: seq<Entry>)
    ensures LogicalBytes(Insert(e, es)) == LogicalBytes(es) + if e.File? then |e.contents| else 0
  {
    if es == [] || !Less(es[0].path, e.path) {
      OneInFront(e, es);
    } else {
      InsertAddsSize(e, es[1..]);
      OneInFront(es[0], Insert(e, es[1..]));
      OneInFront(es[0], es[1..]);
      assert es == [es[0]] + es[1..];
    }
  }

  lemma {:induction false} OneInFront(e: Entry, es: seq<Entry>)
    ensures LogicalBytes([e] + es) == LogicalBytes(es) + if e.File? then |e.contents| else 0
  {
    if es == [] {
      assert ([e] + es)[..0] == [];
    } else {
      var n := |es| - 1;
      OneInFront(e, es[..n]);
      assert ([e] + es)[..n + 1] == [e] + es[..n];
    }
  }

  /** What is hashed for one file, byte by byte: kind, length and path, mode, length and contents. */
  lemma OneFileEncoded()
    ensures EncodeEntry(File([97], 0x1a4, [7, 8])) ==
              [102] + ([0, 0, 0, 0, 0, 0, 0, 1] + [97]) + [0, 0, 1, 0xa4] + ([0, 0, 0, 0, 0, 0, 0, 2] + [7, 8])
    ensures EncodeEntry(Directory([97], 0x1ed)) == [100] + ([0, 0, 0, 0, 0, 0, 0, 1] + [97]) + [0, 0, 1, 0xed]
  {
    hide BigEndian;
    Lengths();
    Modes();
  }

  lemma Lengths()
    ensures BigEndian(1, 8) == [0, 0, 0, 0, 0, 0, 0, 1] && BigEndian(2, 8) == [0, 0, 0, 0, 0, 0, 0, 2]
  {
    SmallNumber(1, 8);
    SmallNumber(2, 8);
  }

  lemma Modes()
    ensures BigEndian(0x1a4, 4) == [0, 0, 1, 0xa4] && BigEndian(0x1ed, 4) == [0, 0, 1, 0xed]
  {
    SmallNumber(1, 3);
    assert BigEndian(0x1a4, 4) == BigEndian(1, 3) + [0xa4] && BigEndian(0x1ed, 4) == BigEndian(1, 3) + [0xed];
  }

  lemma {:induction false} SmallNumber(n: nat, width: nat)
    requires n < 256 && width > 0
    ensures BigEndian(n, width) == seq(width - 1, _ => 0) + [n]
  {
    if width > 1 {
      SmallNumber(0, width - 1);
    }
  }

  /** `digestTree`: walks, checks, sorts and hashes a tree. */
  method DigestTree(walk: seq<Visit>) returns (r: Option<Digest>)
    ensures r == DigestOf(walk)
    // links and special files are refused, and the two markers anywhere below the root; nothing else is
    ensures r.Some? <==> forall v | v in walk ::
              && v.kind != SymlinkKind && v.kind != SpecialKind
              && (v.path != Ascii(".") ==>
                    !Named(v.path, Ascii(".testplay-storage-owner")) && !Named(v.path, Ascii(".unity-workspace-storage-owner.json")))
    // the sizes of all regular files, each once
    ensures r.Some? ==> r.value.logicalBytes == SizeOf(walk)
  {
    AllowedNames(walk);
    if DigestOf(walk).Some? { SizesAgree(walk); }
    var collected := Collect(walk);
    if collected.None? {
      return None;
    }
    var sorted := SortByPath(collected.value);
    var hashed, logical := WriteEntries(sorted);
    r := Some(Digest(hashed, logical));
  }

  // ----- What a digest determines -----------------------------------------------------------

  /** The entries of a tree that Go can represent, with the distinct paths of a file system. */
  ghost predicate RealTree(walk: seq<Visit>) {
    && (forall v | v in walk :: v.AsEntry().Representable())
    && OnePerPath(Entries(walk))
  }

  /** The digest does not depend on the order in which the walk meets the entries. */
  lemma DigestIgnoresWalkOrder(a: seq<Visit>, b: seq<Visit>)
    requires multiset(a) == multiset(b) && RealTree(a)
    ensures DigestOf(a) == DigestOf(b)
  {
    SameMembers(a, b);
    EntriesPermuted(a, b);
    var x, y := SortByPath(Entries(a)), SortByPath(Entries(b));
    SortedIsOrdered(Entries(a));
    SortedIsOrdered(Entries(b));
    SameMembers(Entries(a), x);
    OrderingIsUnique(x, y);
  }

  lemma WithoutOne<T>(s: seq<T>, j: nat)
    requires j < |s|
    ensures multiset(s) == multiset(s[..j] + s[j + 1..]) + multiset{s[j]}
  {
    assert s == s[..j] + [s[j]] + s[j + 1..];
  }

  lemma EntriesWithout(s: seq<Visit>, j: nat)
    requires j < |s|
    ensures Entries(s)[..j] + Entries(s)[j + 1..] == Entries(s[..j] + s[j + 1..])
  {
  }

  lemma SameHead(a: seq<Visit>, b: seq<Visit>, j: nat)
    requires a != [] && j < |b| && b[j] == a[0]
    requires multiset(Entries(a[1..])) == multiset(Entries(b[..j] + b[j + 1..]))
    ensures multiset(Entries(a)) == multiset(Entries(b))
  {
    EntriesWithout(b, j);
    assert Entries(a)[1..] == Entries(a[1..]) && Entries(a)[0] == Entries(b)[j];
    hide Entries;
    TailMultiset(Entries(a));
    WithoutOne(Entries(b), j);
  }

  lemma {:induction false} EntriesPermuted(a: seq<Visit>, b: seq<Visit>)
    requires multiset(a) == multiset(b)
    ensures multiset(Entries(a)) == multiset(Entries(b))
  {
    SameMembers(a, b);
    if a != [] {
      hide Entries;
      assert a[0] in b;
      var j :| 0 <= j < |b| && b[j] == a[0];
      TailMultiset(a);
      WithoutOne(b, j);
      EntriesPermuted(a[1..], b[..j] + b[j + 1..]);
      SameHead(a, b, j);
    }
  }

  /** Equal digests come from equal trees, whatever the two walk orders were. */
  lemma DigestDeterminesTree(a: seq<Visit>, b: seq<Visit>)
    requires RealTree(a) && RealTree(b)
    requires DigestOf(a).Some? && DigestOf(a) == DigestOf(b)
    ensures multiset(Entries(a)) == multiset(Entries(b))
  {
    var x, y := SortByPath(Entries(a)), SortByPath(Entries(b));
    RepresentableSorted(a);
    RepresentableSorted(b);
    StreamRoundTrip(x);
    StreamRoundTrip(y);
  }

  lemma RepresentableSorted(walk: seq<Visit>)
    requires RealTree(walk)
    ensures forall e | e in SortByPath(Entries(walk)) :: e.Representable()
  {
    forall e | e in SortByPath(Entries(walk)) ensures e.Representable() {
      assert e in multiset(SortByPath(Entries(walk)));
      assert e in Entries(walk);
      var i :| 0 <= i < |walk| && Entries(walk)[i] == e;
      assert walk[i] in walk;
    }
  }
}
