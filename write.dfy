/**
 * Writing objects (src/object/write.rs): the order tree entries are compared in, the mode of a
 * directory entry, the bytes of a tree payload, the `<kind> <size>\0` framing every object is
 * hashed and stored with, the two-level object path, and the text of a commit.
 *
 * SHA-1 is an uninterpreted function from the framed bytes to a 20-byte digest, zlib is left
 * out (an object file is modelled by the framed bytes it decompresses to), and the file system
 * the directory walk reads is an input: a tree of nodes whose children come in walk order.
 */
module ObjectWrite {
  import opened Wrappers
  import opened Bytes
  import Numerals
  import Hex
  import Utf8
  import GitConfig
  import opened GitObject

  // ---------------------------------------------------------------------------------------------
  // The `sort_by_file_path` comparator
  // ---------------------------------------------------------------------------------------------

  datatype Ordering = Less | Equal | Greater

  function Flip(o: Ordering): Ordering {
    match o
    case Less => Greater
    case Equal => Equal
    case Greater => Less
  }

  /** `Ord` on integers, as `char::cmp` compares two characters. */
  function CompareInt(x: int, y: int): (o: Ordering)
    ensures o == Equal <==> x == y
    ensures o == Less <==> x < y
  {
    if x < y then Less else if x == y then Equal else Greater
  }

  /** `Ord` on byte slices: lexicographic, a proper prefix before its extensions. */
  function Lex(a: seq<byte>, b: seq<byte>): (o: Ordering)
    ensures o == Equal <==> a == b
  {
    if a == [] then (if b == [] then Equal else Less)
    else if b == [] then Greater
    else if a[0] != b[0] then CompareInt(a[0], b[0])
    else
      assert a == [a[0]] + a[1..] && b == [b[0]] + b[1..];
      Lex(a[1..], b[1..])
  }

  /** The character a name contributes once the common prefix ties: `/` for a directory whose name is all prefix, NUL otherwise. */
  function TieChar(name: seq<byte>, len: nat, isDir: bool): byte {
    if |name| == len && isDir then '/' as int else NUL
  }

  /**
   * The comparator the walk sorts the entries of a directory with: the names are compared over
   * their common length, and a tie is broken by TieChar. So two entries can tie only when one
   * name is a prefix of the other, and neither is a directory whose name is that whole prefix
   * unless both are; equal names of entries of the same kind always tie.
   */
  function Compare(name1: seq<byte>, isDir1: bool, name2: seq<byte>, isDir2: bool): (o: Ordering)
    ensures o == Equal ==> StartsWith(name1, name2) || StartsWith(name2, name1)
    ensures o == Equal && |name1| <= |name2| ==> (isDir1 <==> isDir2 && |name1| == |name2|)
    ensures name1 == name2 && isDir1 == isDir2 ==> o == Equal
  {
    var len := if |name1| < |name2| then |name1| else |name2|;
    match Lex(name1[..len], name2[..len])
    case Equal =>
      assert name1[..len] == name2[..len];
      assert len == |name1| ==> name2[..|name1|] == name1;
      assert len == |name2| ==> name1[..|name2|] == name2;
      CompareInt(TieChar(name1, len, isDir1), TieChar(name2, len, isDir2))
    case o => o
  }

  lemma {:induction false} LexFirstDifference(a: seq<byte>, b: seq<byte>, k: nat)
    requires k < |a| && k < |b| && a[..k] == b[..k] && a[k] != b[k]
    ensures Lex(a, b) == CompareInt(a[k], b[k])
  {
    if k > 0 {
      assert a[0] == a[..k][0] == b[..k][0] == b[0];
      assert a[1..][..k - 1] == a[1..k] == a[..k][1..] == b[..k][1..] == b[1..k] == b[1..][..k - 1];
      LexFirstDifference(a[1..], b[1..], k - 1);
    }
  }

  lemma {:induction false} LexFlip(a: seq<byte>, b: seq<byte>)
    ensures Lex(b, a) == Flip(Lex(a, b))
  {
    if a != [] && b != [] && a[0] == b[0] {
      LexFlip(a[1..], b[1..]);
    }
  }

  /**
   * Where the names first differ within their common length, that byte decides the order, whatever
   * the directory flags.
   */
  lemma CompareFirstDifference(name1: seq<byte>, isDir1: bool, name2: seq<byte>, isDir2: bool, k: nat)
    requires k < |name1| && k < |name2| && name1[..k] == name2[..k] && name1[k] != name2[k]
    ensures Compare(name1, isDir1, name2, isDir2) == (if name1[k] < name2[k] then Less else Greater)
  {
    var len := if |name1| < |name2| then |name1| else |name2|;
    assert name1[..len][..k] == name1[..k] && name2[..len][..k] == name2[..k];
    LexFirstDifference(name1[..len], name2[..len], k);
  }

  /**
   * When one name is a prefix of the other: a shorter directory sorts after every name that
   * extends it, a shorter non-directory compares Equal to its extensions, and equal names are
   * ordered file before directory.
   */
  lemma ComparePrefix(name1: seq<byte>, isDir1: bool, name2: seq<byte>, isDir2: bool)
    requires StartsWith(name2, name1)
    ensures |name1| < |name2| ==> Compare(name1, isDir1, name2, isDir2) == (if isDir1 then Greater else Equal)
    ensures |name1| < |name2| ==> Compare(name2, isDir2, name1, isDir1) == (if isDir1 then Less else Equal)
    ensures |name1| == |name2| ==>
              Compare(name1, isDir1, name2, isDir2) == CompareInt(if isDir1 then 1 else 0, if isDir2 then 1 else 0)
  {
    var len := |name1|;
    assert name1[..len] == name1 == name2[..len];
  }

  /** Swapping the arguments reverses the result. */
  lemma CompareAntisymmetric(name1: seq<byte>, isDir1: bool, name2: seq<byte>, isDir2: bool)
    ensures Compare(name2, isDir2, name1, isDir1) == Flip(Compare(name1, isDir1, name2, isDir2))
  {
    var len := if |name1| < |name2| then |name1| else |name2|;
    LexFlip(name1[..len], name2[..len]);
  }

  const Foo: seq<byte> := [0x66, 0x6f, 0x6f]                                   // "foo"
  const Foo2: seq<byte> := [0x66, 0x6f, 0x6f, 0x32]                            // "foo2"
  const FooTxt: seq<byte> := [0x66, 0x6f, 0x6f, 0x2e, 0x74, 0x78, 0x74]        // "foo.txt"

  /**
   * With a directory `foo` and files `foo2` and `foo.txt`, the order is `foo.txt`, `foo2`, `foo`
   * (Git itself puts the directory `foo` between `foo.txt` and `foo2`).
   */
  lemma FixtureOrder()
    ensures Compare(FooTxt, false, Foo2, false) == Less
    ensures Compare(Foo2, false, Foo, true) == Less
    ensures Compare(FooTxt, false, Foo, true) == Less
  {
    assert FooTxt[..3] == Foo2[..3];
    CompareFirstDifference(FooTxt, false, Foo2, false, 3);
    assert Foo2[..3] == Foo;
    ComparePrefix(Foo, true, Foo2, false);
    assert FooTxt[..3] == Foo;
    ComparePrefix(Foo, true, FooTxt, false);
  }

  /**
   * Equal is not transitive: a file `foo` ties with both `foo.txt` and `foo2`, which do not tie
   * with each other. So the comparator is not a total order.
   */
  lemma EqualNotTransitive()
    ensures Compare(Foo, false, FooTxt, false) == Equal
    ensures Compare(Foo, false, Foo2, false) == Equal
    ensures Compare(FooTxt, false, Foo2, false) == Less
  {
    FixtureOrder();
    assert FooTxt[..3] == Foo && Foo2[..3] == Foo;
    ComparePrefix(Foo, false, FooTxt, false);
    ComparePrefix(Foo, false, Foo2, false);
  }

  // ---------------------------------------------------------------------------------------------
  // Modes and entry headers
  // ---------------------------------------------------------------------------------------------

  /** What the walk reports an entry to be (a symlink is reported as itself, not followed). */
  datatype FileType = Directory | RegularFile | Symlink | OtherType

  datatype WriteError = UnknownFileType

  /** `0o111`: the execute bits of owner, group and others. */
  const ExecuteBits: bv32 := 0x49

  /** The mode `write_tree` records for an entry, from its type and permission bits. */
  function ModeOf(t: FileType, perm: bv32): (r: Result<nat, WriteError>)
    ensures r.Err? <==> t == OtherType
    ensures t == Directory ==> r == Ok(40000)
    ensures t == Symlink ==> r == Ok(120000)
    ensures t == RegularFile ==> r == (if perm & ExecuteBits != 0 then Ok(100755) else Ok(100644))
  {
    match t
    case Directory => Ok(40000)
    case RegularFile => if perm & ExecuteBits != 0 then Ok(100755) else Ok(100644)
    case Symlink => Ok(120000)
    case OtherType => Err(UnknownFileType)
  }

  /** `n.to_string().as_bytes()`. */
  function DecimalBytes(n: nat): (b: seq<byte>)
    ensures |b| >= 1 && Utf8.AllAscii(b) && SPACE !in b && NUL !in b
  {
    var s := Numerals.NatToString(n);
    assert IsAscii(s);
    Ascii(s)
  }

  /** The decimal text of a number with one more digit. */
  lemma DecimalStep(n: nat, prefix: seq<byte>)
    requires n >= 10 && DecimalBytes(n / 10) == prefix
    ensures DecimalBytes(n) == prefix + [(n % 10) + 0x30]
  {
    var s := Numerals.NatToString(n);
    assert s == Numerals.NatToString(n / 10) + [Numerals.DigitChar(n % 10)];
    assert DecimalBytes(n)[..|s| - 1] == DecimalBytes(n / 10);
  }

  lemma TreeModeDecimal()
    ensures DecimalBytes(40000) == TreeModeText
  {
    assert DecimalBytes(4) == [0x34];
    DecimalStep(40, [0x34]);
    assert DecimalBytes(40) == [0x34, 0x30];
    DecimalStep(400, [0x34, 0x30]);
    assert DecimalBytes(400) == [0x34, 0x30, 0x30];
    DecimalStep(4000, [0x34, 0x30, 0x30]);
    assert DecimalBytes(4000) == [0x34, 0x30, 0x30, 0x30];
    DecimalStep(40000, [0x34, 0x30, 0x30, 0x30]);
  }

  lemma OneHundredDecimal()
    ensures DecimalBytes(100) == [0x31, 0x30, 0x30]
  {
    assert DecimalBytes(1) == [0x31];
    DecimalStep(10, [0x31]);
    DecimalStep(100, [0x31, 0x30]);
  }

  lemma RegularModeDecimal()
    ensures DecimalBytes(100644) == RegularModeText
  {
    OneHundredDecimal();
    DecimalStep(1006, [0x31, 0x30, 0x30]);
    DecimalStep(10064, [0x31, 0x30, 0x30, 0x36]);
    DecimalStep(100644, [0x31, 0x30, 0x30, 0x36, 0x34]);
  }

  lemma ExecutableModeDecimal()
    ensures DecimalBytes(100755) == ExecutableModeText
  {
    OneHundredDecimal();
    DecimalStep(1007, [0x31, 0x30, 0x30]);
    DecimalStep(10075, [0x31, 0x30, 0x30, 0x37]);
    DecimalStep(100755, [0x31, 0x30, 0x30, 0x37, 0x35]);
  }

  lemma SymlinkModeDecimal()
    ensures DecimalBytes(120000) == SymlinkModeText
  {
    TwelveHundredDecimal();
    DecimalStep(12000, [0x31, 0x32, 0x30, 0x30]);
    assert DecimalBytes(12000) == [0x31, 0x32, 0x30, 0x30, 0x30];
    DecimalStep(120000, [0x31, 0x32, 0x30, 0x30, 0x30]);
  }

  lemma TwelveHundredDecimal()
    ensures DecimalBytes(1200) == [0x31, 0x32, 0x30, 0x30]
  {
    assert DecimalBytes(1) == [0x31];
    DecimalStep(12, [0x31]);
    assert DecimalBytes(12) == [0x31, 0x32];
    DecimalStep(120, [0x31, 0x32]);
    assert DecimalBytes(120) == [0x31, 0x32, 0x30];
    DecimalStep(1200, [0x31, 0x32, 0x30]);
  }

  /** The text of the four modes is the text TreeEntry::parse recognises. */
  lemma ModeTexts()
    ensures DecimalBytes(40000) == TreeModeText
    ensures DecimalBytes(100644) == RegularModeText
    ensures DecimalBytes(100755) == ExecutableModeText
    ensures DecimalBytes(120000) == SymlinkModeText
  {
    TreeModeDecimal();
    RegularModeDecimal();
    ExecutableModeDecimal();
    SymlinkModeDecimal();
  }

  /**
   * Every mode `write_tree` records is one TreeEntry::parse accepts, and it stands for the kind
   * of the entry: a directory is a tree, a file or a symlink a blob; only a file's execute bits
   * matter, and any one of them makes it executable.
   */
  lemma ModeOfParses(t: FileType, perm: bv32)
    requires t != OtherType
    ensures ModeKind(DecimalBytes(ModeOf(t, perm).value)) == Some(if t == Directory then Tree else Blob)
    ensures t == RegularFile ==>
              DecimalBytes(ModeOf(t, perm).value) ==
                (if perm & 0x40 != 0 || perm & 0x08 != 0 || perm & 0x01 != 0 then ExecutableModeText else RegularModeText)
  {
    ModeTexts();
    if t == RegularFile {
      ExecuteBitSet(perm);
    }
  }

  /** `mode & 0o111 != 0`: one of the owner, group and other execute bits is set. */
  lemma ExecuteBitSet(perm: bv32)
    ensures perm & ExecuteBits != 0 <==> perm & 0x40 != 0 || perm & 0x08 != 0 || perm & 0x01 != 0
  {
  }

  /** `mode SP name NUL`: what each entry appends before its digest. */
  function EntryHeader(mode: nat, name: seq<byte>): seq<byte> {
    DecimalBytes(mode) + [SPACE] + name + [NUL]
  }

  /**
   * An entry header `write_tree` emits, for a name with no NUL that is well-formed UTF-8, reads
   * back with TreeEntry::parse as that name with the kind of the entry.
   */
  lemma EntryHeaderParses(t: FileType, perm: bv32, name: seq<byte>, digest: Digest)
    requires t != OtherType && NUL !in name && Utf8.IsValid(name)
    ensures var mode := DecimalBytes(ModeOf(t, perm).value);
            ParseEntry(EntryHeader(ModeOf(t, perm).value, name), digest) ==
              Ok(TreeEntry(mode, if t == Directory then Tree else Blob, name, Hex.Encode(digest)))
  {
    ModeOfParses(t, perm);
    ParseEntryOfHeader(DecimalBytes(ModeOf(t, perm).value), name, digest);
  }

  // ---------------------------------------------------------------------------------------------
  // Framing and object paths
  // ---------------------------------------------------------------------------------------------

  /** The ASCII bytes of the kind names, as the `format!` literals of the headers spell them. */
  function KindTag(k: ObjectKind): seq<byte> {
    match k
    case Blob => [0x62, 0x6c, 0x6f, 0x62]                // "blob"
    case Tree => [0x74, 0x72, 0x65, 0x65]                // "tree"
    case Commit => [0x63, 0x6f, 0x6d, 0x6d, 0x69, 0x74]  // "commit"
  }

  /** The tags are the UTF-8 bytes of the names TreeEntry lines and `from_str` use. */
  lemma KindTagIsName(k: ObjectKind)
    ensures KindTag(k) == Utf8.Encode(KindName(k))
  {
    match k
    case Blob => Utf8.AsciiText(KindName(k), KindTag(k));
    case Tree => Utf8.AsciiText(KindName(k), KindTag(k));
    case Commit => Utf8.AsciiText(KindName(k), KindTag(k));
  }

  /** The bytes hashed and stored for an object: `<kind> <size>\0` and the payload. */
  function Frame(k: ObjectKind, payload: seq<byte>): seq<byte> {
    KindTag(k) + [SPACE] + DecimalBytes(|payload|) + [NUL] + payload
  }

  datatype Framed = Framed(kind: ObjectKind, payload: seq<byte>)

  /** The kind whose tag these bytes are. */
  function KindOfTag(b: seq<byte>): (k: Option<ObjectKind>)
    ensures k.Some? ==> KindTag(k.value) == b
  {
    if b == KindTag(Blob) then Some(Blob)
    else if b == KindTag(Tree) then Some(Tree)
    else if b == KindTag(Commit) then Some(Commit)
    else None
  }

  /**
   * A reader of the framing: the kind up to the first space, the size up to the first NUL, and a
   * payload of exactly that size after it.
   */
  function ParseFrame(f: seq<byte>): Option<Framed> {
    var space := IndexOf(f, SPACE);
    if space.None? then None
    else
      var kind := KindOfTag(f[..space.value]);
      var payload := ReadSized(f[space.value + 1..]);
      if kind.Some? && payload.Some? then Some(Framed(kind.value, payload.value)) else None
  }

  /** The payload after `<size>\0`, when it has exactly that size. */
  function ReadSized(rest: seq<byte>): Option<seq<byte>> {
    var nul := IndexOf(rest, NUL);
    if nul.None? then None
    else
      var payload := rest[nul.value + 1..];
      if rest[..nul.value] == DecimalBytes(|payload|) then Some(payload) else None
  }

  /** The reader accepts nothing but frames: what it reads is exactly the frame of its result. */
  lemma ParseFrameSound(f: seq<byte>)
    requires ParseFrame(f).Some?
    ensures f == Frame(ParseFrame(f).value.kind, ParseFrame(f).value.payload)
  {
    var i := IndexOf(f, SPACE).value;
    var tag := f[..i];
    var k := KindOfTag(tag).value;
    var rest := f[i + 1..];
    var payload := ReadSized(rest).value;
    assert ParseFrame(f) == Some(Framed(k, payload));
    var j := IndexOf(rest, NUL).value;
    assert payload == rest[j + 1..];
    assert rest[..j] == DecimalBytes(|payload|);
    assert KindTag(k) == tag;
    assert f[i] == SPACE && rest[j] == NUL;
    SplitTwice(f, i, j);
    assert f == tag + [SPACE] + rest[..j] + [NUL] + payload;
  }

  lemma KindTagHeader(k: ObjectKind)
    ensures SPACE !in KindTag(k)
    ensures KindOfTag(KindTag(k)) == Some(k)
  {
  }

  /** Reading a frame gives back the kind and the payload it was made of. */
  lemma FrameRoundTrip(k: ObjectKind, payload: seq<byte>)
    ensures ParseFrame(Frame(k, payload)) == Some(Framed(k, payload))
  {
    KindTagHeader(k);
    ReadFrameParts(KindTag(k), DecimalBytes(|payload|), payload, k);
  }

  lemma ReadFrameParts(tag: seq<byte>, size: seq<byte>, payload: seq<byte>, k: ObjectKind)
    requires SPACE !in tag && KindOfTag(tag) == Some(k) && size == DecimalBytes(|payload|)
    ensures ParseFrame(tag + [SPACE] + size + [NUL] + payload) == Some(Framed(k, payload))
  {
    var rest := size + [NUL] + payload;
    assert tag + [SPACE] + size + [NUL] + payload == tag + [SPACE] + rest;
    ReadSizedAfter(size, payload);
    ReadTagAfter(tag, rest, k);
  }

  /** The kind is read up to the first space. */
  lemma ReadTagAfter(tag: seq<byte>, rest: seq<byte>, k: ObjectKind)
    requires SPACE !in tag && KindOfTag(tag) == Some(k) && ReadSized(rest).Some?
    ensures ParseFrame(tag + [SPACE] + rest) == Some(Framed(k, ReadSized(rest).value))
  {
    var f := tag + [SPACE] + rest;
    IndexOfAfter(tag, SPACE, rest);
    assert f[..|tag|] == tag && f[|tag| + 1..] == rest;
  }

  /** The size is read up to the first NUL and checked against what follows. */
  lemma ReadSizedAfter(size: seq<byte>, payload: seq<byte>)
    requires size == DecimalBytes(|payload|)
    ensures ReadSized(size + [NUL] + payload) == Some(payload)
  {
    var rest := size + [NUL] + payload;
    IndexOfAfter(size, NUL, payload);
    assert rest[..|size|] == size && rest[|size| + 1..] == payload;
  }

  /** Different objects have different frames. */
  lemma FrameInjective(k1: ObjectKind, p1: seq<byte>, k2: ObjectKind, p2: seq<byte>)
    requires Frame(k1, p1) == Frame(k2, p2)
    ensures k1 == k2 && p1 == p2
  {
    FrameRoundTrip(k1, p1);
    FrameRoundTrip(k2, p2);
  }

  /** `.git/objects/<first two hex digits>/<other 38>`. */
  function ObjectPath(d: Digest): string {
    var hex := Hex.Encode(d);
    ObjectsDir + hex[..2] + "/" + hex[2..]
  }

  /** Distinct digests are stored at distinct paths. */
  lemma ObjectPathInjective(d1: Digest, d2: Digest)
    requires ObjectPath(d1) == ObjectPath(d2)
    ensures d1 == d2
  {
    var h1, h2 := Hex.Encode(d1), Hex.Encode(d2);
    var n := |ObjectsDir|;
    var p1, p2 := ObjectPath(d1), ObjectPath(d2);
    assert p1[n..n + 2] == h1[..2] && p1[n + 3..] == h1[2..];
    assert p2[n..n + 2] == h2[..2] && p2[n + 3..] == h2[2..];
    assert h1 == h1[..2] + h1[2..] && h2 == h2[..2] + h2[2..];
    Hex.EncodeInjective(d1, d2);
  }

  /** The hex text of a digest passes the checks `open` makes, and splits where ObjectPath does. */
  lemma DigestTextWellFormed(d: Digest)
    ensures WellFormedHash(Hex.Encode(d))
    ensures BucketDir(Hex.Encode(d)) + "/" + NamePrefix(Hex.Encode(d)) == ObjectPath(d)
  {
    var hex := Hex.Encode(d);
    assert IsAscii(hex);
    Utf8.EncodeAscii(hex);
    Hex.DecodeEncode(d);
  }

  /**
   * `open` finds a stored object from its full hex digest, when its bucket lists it once among
   * 38-character names (the names ObjectPath gives).
   */
  lemma OpenFindsStored(d: Digest, dirs: map<string, seq<string>>, i: nat)
    requires var hex := Hex.Encode(d); var dir := ObjectsDir + hex[..2];
             && dir in dirs && i < |dirs[dir]| && dirs[dir][i] == hex[2..]
             && (forall j :: 0 <= j < |dirs[dir]| ==> |dirs[dir][j]| == 38)
             && (forall j :: 0 <= j < |dirs[dir]| && dirs[dir][j] == hex[2..] ==> j == i)
    ensures Resolve(Hex.Encode(d), dirs) == Ok(ObjectPath(d))
  {
    var hex := Hex.Encode(d);
    DigestTextWellFormed(d);
    var dir, prefix := BucketDir(hex), NamePrefix(hex);
    var l := dirs[dir];
    assert StartsWith(l[i], prefix);
    forall j | 0 <= j < |l| && StartsWith(l[j], prefix)
      ensures j == i
    {
      assert l[j] == l[j][..38] == prefix;
    }
    ResolveFound(hex, dirs, i);
  }

  /**
   * Two stored objects whose digests share their first two bytes make the four-digit
   * abbreviation of either Ambiguous.
   */
  lemma SharedPrefixAmbiguous(d1: Digest, d2: Digest, dirs: map<string, seq<string>>, i: nat, j: nat)
    requires d1[..2] == d2[..2]
    requires var dir := ObjectsDir + Hex.Encode(d1)[..2];
             && dir in dirs && i < j < |dirs[dir]|
             && {dirs[dir][i], dirs[dir][j]} == {Hex.Encode(d1)[2..], Hex.Encode(d2)[2..]}
    ensures Resolve(Hex.Encode(d1)[..4], dirs) == Err(Ambiguous)
  {
    var h1, h2 := Hex.Encode(d1), Hex.Encode(d2);
    assert h1[..4] == Hex.Encode(d1[..2]) == Hex.Encode(d2[..2]) == h2[..4] by {
      HexPrefix(d1, 2);
      HexPrefix(d2, 2);
    }
    var abbrev := h1[..4];
    assert IsAscii(abbrev);
    Utf8.EncodeAscii(abbrev);
    Hex.DecodeEncode(d1[..2]);
    assert WellFormedHash(abbrev);
    var dir, prefix := BucketDir(abbrev), NamePrefix(abbrev);
    assert dir == ObjectsDir + h1[..2];
    assert prefix == h1[2..4] == h2[2..4];
    var l := dirs[dir];
    assert StartsWith(h1[2..], prefix) && StartsWith(h2[2..], prefix);
    assert l[i] in {h1[2..], h2[2..]} && l[j] in {h1[2..], h2[2..]};
    assert StartsWith(l[i], prefix) && StartsWith(l[j], prefix);
    ResolveAmbiguous(abbrev, dirs);
  }

  /** The hex text of a prefix of a byte string is the matching prefix of its hex text. */
  lemma {:induction false} HexPrefix(b: seq<byte>, n: nat)
    requires n <= |b|
    ensures Hex.Encode(b)[..2 * n] == Hex.Encode(b[..n])
  {
    if n > 0 {
      HexPrefix(b[1..], n - 1);
      assert b[1..][..n - 1] == b[..n][1..];
      assert Hex.Encode(b) == Hex.Encode(b[..1]) + Hex.Encode(b[1..]);
    }
  }

  // ---------------------------------------------------------------------------------------------
  // Trees (`write_tree`) and blobs (`calc_hash_object`)
  // ---------------------------------------------------------------------------------------------

  /** The object files: path to the framed bytes the file decompresses to. */
  type Store = map<string, seq<byte>>

  /**
   * What the walk yields for one entry of a directory: its file name, its own type (a symlink is
   * `Symlink`), whether `Path::is_dir` holds of its path (which follows a symlink, so a link to a
   * directory has it), its permission bits, the bytes reading the path gives (through a symlink,
   * its target's), and, for a directory, its own entries in walk order.
   */
  datatype Node = Node(name: seq<byte>, fileType: FileType, isDir: bool, perm: bv32, data: seq<byte>, children: seq<Node>)

  /**
   * Every file of the store holds a well-framed object and sits at the path of its own digest.
   */
  predicate ContentAddressed(store: Store, hash: seq<byte> -> Digest) {
    forall p :: p in store ==> ParseFrame(store[p]).Some? && p == ObjectPath(hash(store[p]))
  }

  /** Stores an object under its digest. */
  function Put(store: Store, hash: seq<byte> -> Digest, frame: seq<byte>): Store {
    store[ObjectPath(hash(frame)) := frame]
  }

  datatype TreeResult = TreeResult(result: Result<Option<Digest>, WriteError>, store: Store)

  /** Where the loop over a directory's entries stands: going on, or stopped by a failure. */
  datatype Step =
    | Continue(payload: seq<byte>, store: Store)
    | Fail(error: WriteError, payload: seq<byte>, store: Store)

  /**
   * `write_tree` on a directory with entries cs: the digest of the tree object it writes, or None
   * (and nothing written) when the payload stays empty; blobs and subtrees written before a
   * failure stay written.
   */
  function TreeSpec(hash: seq<byte> -> Digest, cs: seq<Node>, store: Store): TreeResult
    decreases cs, 2
  {
    match EntriesSpec(hash, cs, 0, [], store)
    case Fail(e, _, s) => TreeResult(Err(e), s)
    case Continue(payload, s) =>
      if payload == [] then TreeResult(Ok(None), s)
      else
        var frame := Frame(Tree, payload);
        TreeResult(Ok(Some(hash(frame))), Put(s, hash, frame))
  }

  /** The loop of `write_tree` from entry i on. */
  function EntriesSpec(hash: seq<byte> -> Digest, cs: seq<Node>, i: nat, payload: seq<byte>, store: Store): Step
    requires i <= |cs|
    decreases cs, 1, |cs| - i
  {
    if i == |cs| then Continue(payload, store)
    else
      match EntryStep(hash, cs[i], payload, store)
      case Fail(e, p, s) => Fail(e, p, s)
      case Continue(p, s) => EntriesSpec(hash, cs, i + 1, p, s)
  }

  /**
   * One pass of the loop body: the entry's header is appended, then the digest of its blob or
   * subtree; an empty subdirectory appends no digest but keeps its header.
   */
  function EntryStep(hash: seq<byte> -> Digest, c: Node, payload: seq<byte>, store: Store): Step
    decreases c.children, 3
  {
    match ModeOf(c.fileType, c.perm)
    case Err(e) => Fail(e, payload, store)
    case Ok(mode) =>
      var withHeader := payload + EntryHeader(mode, c.name);
      if c.fileType == Directory then
        var sub := TreeSpec(hash, c.children, store);
        match sub.result
        case Err(e) => Fail(e, withHeader, sub.store)
        case Ok(None) => Continue(withHeader, sub.store)
        case Ok(Some(d)) => Continue(withHeader + d, sub.store)
      else
        var blob := Frame(Blob, c.data);
        Continue(withHeader + hash(blob), Put(store, hash, blob))
  }

  /** An entry that does not fail appends at least its header. */
  lemma StepExtends(hash: seq<byte> -> Digest, c: Node, payload: seq<byte>, store: Store)
    ensures StartsWith(EntryStep(hash, c, payload, store).payload, payload)
    ensures EntryStep(hash, c, payload, store).Continue? ==> |EntryStep(hash, c, payload, store).payload| > |payload|
  {
    var step := EntryStep(hash, c, payload, store);
    match ModeOf(c.fileType, c.perm)
    case Err(e) =>
      assert step == Fail(e, payload, store);
    case Ok(mode) =>
      var header := EntryHeader(mode, c.name);
      if c.fileType == Directory {
        var sub := TreeSpec(hash, c.children, store);
        match sub.result
        case Err(e) =>
          assert step == Fail(e, payload + header, sub.store);
          AppendStartsWith(payload, header, []);
        case Ok(None) =>
          assert step == Continue(payload + header, sub.store);
          AppendStartsWith(payload, header, []);
        case Ok(Some(d)) =>
          assert step == Continue(payload + header + d, sub.store);
          AppendStartsWith(payload, header, d);
      } else {
        var blob := Frame(Blob, c.data);
        assert step == Continue(payload + header + hash(blob), Put(store, hash, blob));
        AppendStartsWith(payload, header, hash(blob));
      }
  }

  /** The loop only appends to the payload, and it grows whenever an entry is left and none fails. */
  lemma {:induction false} EntriesExtend(hash: seq<byte> -> Digest, cs: seq<Node>, i: nat, payload: seq<byte>, store: Store)
    requires i <= |cs|
    ensures var w := EntriesSpec(hash, cs, i, payload, store);
            && StartsWith(w.payload, payload)
            && (i < |cs| && w.Continue? ==> |w.payload| > |payload|)
    decreases |cs| - i
  {
    if i < |cs| {
      var step := EntryStep(hash, cs[i], payload, store);
      StepExtends(hash, cs[i], payload, store);
      if step.Continue? {
        EntriesExtend(hash, cs, i + 1, step.payload, step.store);
      }
    }
  }

  /**
   * `write_tree` returns None exactly for a directory without entries, and then writes nothing:
   * an entry that does not fail always leaves at least its header in the payload.
   */
  lemma TreeNoneIffEmpty(hash: seq<byte> -> Digest, cs: seq<Node>, store: Store)
    ensures TreeSpec(hash, cs, store).result == Ok(None) <==> cs == []
    ensures cs == [] ==> TreeSpec(hash, cs, store).store == store
  {
    EntriesExtend(hash, cs, 0, [], store);
  }

  /**
   * A directory whose only entry is an empty subdirectory is still written: its payload is the
   * subdirectory's `40000 name\0` header with no digest after it.
   */
  lemma EmptySubdirLeavesHeader(hash: seq<byte> -> Digest, name: seq<byte>, perm: bv32, data: seq<byte>, store: Store)
    ensures var frame := Frame(Tree, TreeModeText + [SPACE] + name + [NUL]);
            TreeSpec(hash, [Node(name, Directory, true, perm, data, [])], store) ==
              TreeResult(Ok(Some(hash(frame))), Put(store, hash, frame))
  {
    var c := Node(name, Directory, true, perm, data, []);
    var header := TreeModeText + [SPACE] + name + [NUL];
    TreeModeDecimal();
    assert EntriesSpec(hash, [], 0, [], store) == Continue([], store);
    assert TreeSpec(hash, [], store) == TreeResult(Ok(None), store);
    assert [] + EntryHeader(40000, name) == header;
    assert EntryStep(hash, c, [], store) == Continue(header, store);
    assert EntriesSpec(hash, [c], 1, header, store) == Continue(header, store);
    assert EntriesSpec(hash, [c], 0, [], store) == Continue(header, store);
  }

  predicate IsFile(c: Node) {
    c.fileType == RegularFile || c.fileType == Symlink
  }

  /**
   * A reference definition of the payload of a directory holding only files and symlinks: for
   * each, in walk order, its header and the digest of its blob.
   */
  function FilesPayload(hash: seq<byte> -> Digest, cs: seq<Node>): seq<byte>
    requires forall i :: 0 <= i < |cs| ==> IsFile(cs[i])
  {
    if cs == [] then [] else FileEntry(hash, cs[0]) + FilesPayload(hash, cs[1..])
  }

  /** The bytes one file or symlink adds: its header, then the digest of its blob. */
  function FileEntry(hash: seq<byte> -> Digest, c: Node): seq<byte>
    requires IsFile(c)
  {
    EntryHeader(ModeOf(c.fileType, c.perm).value, c.name) + hash(Frame(Blob, c.data))
  }

  lemma {:induction false} EntriesOfFiles(hash: seq<byte> -> Digest, cs: seq<Node>, i: nat, payload: seq<byte>, store: Store)
    requires i <= |cs| && forall j :: 0 <= j < |cs| ==> IsFile(cs[j])
    ensures var w := EntriesSpec(hash, cs, i, payload, store);
            w.Continue? && w.payload == payload + FilesPayload(hash, cs[i..])
    decreases |cs| - i
  {
    if i == |cs| {
      assert cs[i..] == [];
    } else {
      var c := cs[i];
      var header := EntryHeader(ModeOf(c.fileType, c.perm).value, c.name);
      var digest := hash(Frame(Blob, c.data));
      var step := EntryStep(hash, c, payload, store);
      FileStep(hash, c, payload, store);
      EntriesSpecNext(hash, cs, i, payload, store);
      EntriesOfFiles(hash, cs, i + 1, step.payload, step.store);
      FilesPayloadCons(hash, cs, i);
      Regroup(payload, header, digest, FilesPayload(hash, cs[i + 1..]));
    }
  }

  /** After an entry that does not fail, the loop goes on from the next entry. */
  lemma EntriesSpecNext(hash: seq<byte> -> Digest, cs: seq<Node>, i: nat, payload: seq<byte>, store: Store)
    requires i < |cs| && EntryStep(hash, cs[i], payload, store).Continue?
    ensures var step := EntryStep(hash, cs[i], payload, store);
            EntriesSpec(hash, cs, i, payload, store) == EntriesSpec(hash, cs, i + 1, step.payload, step.store)
  {
  }

  /** The files from position i on are the file at i, then those after it. */
  lemma FilesPayloadCons(hash: seq<byte> -> Digest, cs: seq<Node>, i: nat)
    requires i < |cs| && forall j :: 0 <= j < |cs| ==> IsFile(cs[j])
    ensures forall j :: 0 <= j < |cs[i..]| ==> IsFile(cs[i..][j])
    ensures FilesPayload(hash, cs[i..]) == FileEntry(hash, cs[i]) + FilesPayload(hash, cs[i + 1..])
  {
    var t := cs[i..];
    assert forall j :: 0 <= j < |t| ==> t[j] == cs[i + j];
    assert t[0] == cs[i] && t[1..] == cs[i + 1..];
  }

  /** The step of a file or symlink: its header and its blob's digest are appended, its blob stored. */
  lemma FileStep(hash: seq<byte> -> Digest, c: Node, payload: seq<byte>, store: Store)
    requires IsFile(c)
    ensures var blob := Frame(Blob, c.data);
            EntryStep(hash, c, payload, store) ==
              Continue(payload + EntryHeader(ModeOf(c.fileType, c.perm).value, c.name) + hash(blob), Put(store, hash, blob))
  {
  }

  /**
   * The step of a directory appends its `40000 name\0` header and then, when the subtree wrote a
   * tree, that tree's digest; an empty subtree adds nothing more, and a failing one stops the
   * loop. What the subtree leaves in the store is the store after the step.
   */
  lemma DirectoryStep(hash: seq<byte> -> Digest, c: Node, payload: seq<byte>, store: Store)
    requires c.fileType == Directory
    ensures var sub, step := TreeSpec(hash, c.children, store), EntryStep(hash, c, payload, store);
            var withHeader := payload + EntryHeader(40000, c.name);
            && step.store == sub.store
            && (sub.result.Err? ==> step == Fail(sub.result.error, withHeader, sub.store))
            && (sub.result == Ok(None) ==> step == Continue(withHeader, sub.store))
            && (sub.result.Ok? && sub.result.value.Some? ==>
                  step == Continue(withHeader + sub.result.value.value, sub.store))
  {
    assert ModeOf(c.fileType, c.perm) == Ok(40000);
  }

  /**
   * A subdirectory holding only files, at least one, adds its header and the digest of the tree
   * frame of those files' payload: the nested case of `write_tree` built from the flat one.
   */
  lemma DirectoryOfFilesStep(hash: seq<byte> -> Digest, c: Node, payload: seq<byte>, store: Store)
    requires c.fileType == Directory && c.children != [] && forall j :: 0 <= j < |c.children| ==> IsFile(c.children[j])
    ensures var step := EntryStep(hash, c, payload, store);
            var frame := Frame(Tree, FilesPayload(hash, c.children));
            && step.Continue?
            && step.payload == payload + EntryHeader(40000, c.name) + hash(frame)
            && ObjectPath(hash(frame)) in step.store && step.store[ObjectPath(hash(frame))] == frame
  {
    var frame := Frame(Tree, FilesPayload(hash, c.children));
    var sub := TreeSpec(hash, c.children, store);
    TreeOfFiles(hash, c.children, store);
    assert sub.result == Ok(Some(hash(frame)));
    DirectoryStep(hash, c, payload, store);
    var step := EntryStep(hash, c, payload, store);
    assert step == Continue(payload + EntryHeader(40000, c.name) + hash(frame), sub.store);
    assert step.store == sub.store;
    assert ObjectPath(hash(frame)) in sub.store && sub.store[ObjectPath(hash(frame))] == frame;
  }

  /** An entry `write_tree` cannot record: of unknown type, or a directory below which one sits. */
  predicate NodeFails(c: Node)
    decreases c.children, 1
  {
    c.fileType == OtherType || (c.fileType == Directory && FailsFrom(c.children, 0))
  }

  /** Some entry from position i on cannot be recorded. */
  predicate FailsFrom(cs: seq<Node>, i: nat)
    decreases cs, 0, |cs| - i
  {
    i < |cs| && (NodeFails(cs[i]) || FailsFrom(cs, i + 1))
  }

  /**
   * `write_tree` fails exactly when an entry of unknown type is reachable through directories,
   * whatever the store holds; otherwise it gives Ok.
   */
  lemma {:induction false} TreeFails(hash: seq<byte> -> Digest, cs: seq<Node>, store: Store)
    ensures TreeSpec(hash, cs, store).result.Err? <==> FailsFrom(cs, 0)
    decreases cs, 2
  {
    EntriesFail(hash, cs, 0, [], store);
  }

  lemma {:induction false} EntriesFail(hash: seq<byte> -> Digest, cs: seq<Node>, i: nat, payload: seq<byte>, store: Store)
    requires i <= |cs|
    ensures EntriesSpec(hash, cs, i, payload, store).Fail? <==> FailsFrom(cs, i)
    decreases cs, 1, |cs| - i
  {
    if i < |cs| {
      StepFails(hash, cs[i], payload, store);
      var step := EntryStep(hash, cs[i], payload, store);
      if step.Continue? {
        EntriesFail(hash, cs, i + 1, step.payload, step.store);
      }
    }
  }

  lemma {:induction false} StepFails(hash: seq<byte> -> Digest, c: Node, payload: seq<byte>, store: Store)
    ensures EntryStep(hash, c, payload, store).Fail? <==> NodeFails(c)
    decreases c.children, 3
  {
    if c.fileType == Directory {
      TreeFails(hash, c.children, store);
      DirectoryStep(hash, c, payload, store);
    }
  }

  /** The tree of a non-empty directory of files is the frame of FilesPayload. */
  lemma TreeOfFiles(hash: seq<byte> -> Digest, cs: seq<Node>, store: Store)
    requires cs != [] && forall j :: 0 <= j < |cs| ==> IsFile(cs[j])
    ensures var frame := Frame(Tree, FilesPayload(hash, cs));
            && TreeSpec(hash, cs, store).result == Ok(Some(hash(frame)))
            && ObjectPath(hash(frame)) in TreeSpec(hash, cs, store).store
            && TreeSpec(hash, cs, store).store[ObjectPath(hash(frame))] == frame
  {
    EntriesOfFiles(hash, cs, 0, [], store);
    EntriesExtend(hash, cs, 0, [], store);
    assert cs[0..] == cs;
  }

  /**
   * No entry compares Greater than a later one, with the directory flag taken from `is_dir` as
   * the comparator takes it. Since Equal is not transitive, a stable sort can leave a listing
   * that is not Sorted (`foo2`, `foo`, `foo.txt` has only Equal neighbours), so this is a
   * property of some walk orders, not a description of every order the walk produces.
   */
  predicate Sorted(cs: seq<Node>) {
    forall i, j :: 0 <= i < j < |cs| ==>
      Compare(cs[i].name, cs[i].isDir, cs[j].name, cs[j].isDir) != Greater
  }

  /**
   * The payload depends on the listing order the walk starts from, not only on the set of
   * entries: files `foo` and `foo.txt` compare Equal, so both orders are sorted, and the two
   * orders give different tree payloads.
   */
  lemma ListingOrderMatters(hash: seq<byte> -> Digest)
    ensures var foo, fooTxt := Node(Foo, RegularFile, false, 0, [], []), Node(FooTxt, RegularFile, false, 0, [], []);
            && Sorted([foo, fooTxt]) && Sorted([fooTxt, foo])
            && FilesPayload(hash, [foo, fooTxt]) != FilesPayload(hash, [fooTxt, foo])
  {
    var foo, fooTxt := Node(Foo, RegularFile, false, 0, [], []), Node(FooTxt, RegularFile, false, 0, [], []);
    EqualNotTransitive();
    CompareAntisymmetric(Foo, false, FooTxt, false);
    SortedPair(foo, fooTxt);
    SortedPair(fooTxt, foo);
    SwappedPayloads(hash, foo, fooTxt);
  }

  lemma SortedPair(a: Node, b: Node)
    requires Compare(a.name, a.isDir, b.name, b.isDir) != Greater
    ensures Sorted([a, b])
  {
  }

  /**
   * A stable sort compares neighbours, and the files `foo2`, `foo`, `foo.txt` in that order have
   * only Equal neighbours, so a stable sort keeps them; yet the listing is not Sorted, because
   * `foo2` compares Greater than `foo.txt`.
   */
  lemma EqualNeighboursNotSorted()
    ensures var foo2, foo, fooTxt := Node(Foo2, RegularFile, false, 0, [], []), Node(Foo, RegularFile, false, 0, [], []),
                                     Node(FooTxt, RegularFile, false, 0, [], []);
            && Compare(foo2.name, foo2.isDir, foo.name, foo.isDir) == Equal
            && Compare(foo.name, foo.isDir, fooTxt.name, fooTxt.isDir) == Equal
            && !Sorted([foo2, foo, fooTxt])
  {
    var foo2, foo, fooTxt := Node(Foo2, RegularFile, false, 0, [], []), Node(Foo, RegularFile, false, 0, [], []),
                             Node(FooTxt, RegularFile, false, 0, [], []);
    EqualNotTransitive();
    CompareAntisymmetric(Foo, false, Foo2, false);
    CompareAntisymmetric(FooTxt, false, Foo2, false);
    var cs := [foo2, foo, fooTxt];
    assert Compare(cs[0].name, cs[0].isDir, cs[2].name, cs[2].isDir) == Greater;
  }

  /**
   * A symlink `foo` to a directory is recorded with the symlink mode, yet the comparator, which
   * asks `is_dir` and so follows the link, sorts it after `foo.txt` as it would a directory,
   * where a file `foo` ties with `foo.txt`.
   */
  lemma LinkToDirectorySortsAsDirectory(perm: bv32, data: seq<byte>)
    ensures var link := Node(Foo, Symlink, true, perm, data, []);
            && ModeOf(link.fileType, link.perm) == Ok(120000)
            && Compare(link.name, link.isDir, FooTxt, false) == Greater
            && Compare(Foo, false, FooTxt, false) == Equal
  {
    assert FooTxt[..3] == Foo;
    ComparePrefix(Foo, true, FooTxt, false);
    ComparePrefix(Foo, false, FooTxt, false);
  }

  /** Swapping the files `foo` and `foo.txt` changes the eleventh byte of the payload. */
  lemma SwappedPayloads(hash: seq<byte> -> Digest, foo: Node, fooTxt: Node)
    requires foo == Node(Foo, RegularFile, false, 0, [], []) && fooTxt == Node(FooTxt, RegularFile, false, 0, [], [])
    ensures FilesPayload(hash, [foo, fooTxt]) != FilesPayload(hash, [fooTxt, foo])
  {
    RegularModeDecimal();
    assert ModeOf(RegularFile, 0) == Ok(100644);
    var h1, h2 := EntryHeader(100644, Foo), EntryHeader(100644, FooTxt);
    var d := hash(Frame(Blob, []));
    TwoFiles(hash, foo, fooTxt);
    TwoFiles(hash, fooTxt, foo);
    assert FileEntry(hash, foo) == h1 + d && FileEntry(hash, fooTxt) == h2 + d;
    assert |DecimalBytes(100644)| == 6;
    EntryHeaderAt(100644, Foo, 3);
    EntryHeaderAt(100644, FooTxt, 3);
    IndexLeft(h1, d, 10);
    IndexLeft(h2, d, 10);
    DifferAt(h1 + d, h2 + d, h2 + d, h1 + d, 10);
  }

  /** The payload of two files: each one's header and blob digest, in listing order. */
  lemma TwoFiles(hash: seq<byte> -> Digest, a: Node, b: Node)
    requires IsFile(a) && IsFile(b)
    ensures FilesPayload(hash, [a, b]) == FileEntry(hash, a) + FileEntry(hash, b)
  {
    PairTail(a, b);
    assert [b][1..] == [];
    assert FilesPayload(hash, [b]) == FileEntry(hash, b) + [];
  }

  /** The bytes of an entry header after the mode and the space are the name's, then NUL. */
  lemma EntryHeaderAt(mode: nat, name: seq<byte>, k: nat)
    requires k <= |name|
    ensures var at := |DecimalBytes(mode)| + 1 + k;
            at < |EntryHeader(mode, name)| && EntryHeader(mode, name)[at] == (name + [NUL])[k]
  {
  }

  lemma PutAddressed(store: Store, hash: seq<byte> -> Digest, k: ObjectKind, payload: seq<byte>)
    requires ContentAddressed(store, hash)
    ensures ContentAddressed(Put(store, hash, Frame(k, payload)), hash)
    ensures store.Keys <= Put(store, hash, Frame(k, payload)).Keys
  {
    FrameRoundTrip(k, payload);
  }

  /** Writing a tree keeps every object at the path of its own digest and removes no file. */
  lemma {:induction false} TreeSpecAddressed(hash: seq<byte> -> Digest, cs: seq<Node>, store: Store)
    requires ContentAddressed(store, hash)
    ensures ContentAddressed(TreeSpec(hash, cs, store).store, hash)
    ensures store.Keys <= TreeSpec(hash, cs, store).store.Keys
    decreases cs, 2
  {
    EntriesSpecAddressed(hash, cs, 0, [], store);
    var w := EntriesSpec(hash, cs, 0, [], store);
    if w.Continue? && w.payload != [] {
      PutAddressed(w.store, hash, Tree, w.payload);
    }
  }

  lemma {:induction false} EntriesSpecAddressed(hash: seq<byte> -> Digest, cs: seq<Node>, i: nat, payload: seq<byte>, store: Store)
    requires i <= |cs| && ContentAddressed(store, hash)
    ensures ContentAddressed(EntriesSpec(hash, cs, i, payload, store).store, hash)
    ensures store.Keys <= EntriesSpec(hash, cs, i, payload, store).store.Keys
    decreases cs, 1, |cs| - i
  {
    if i < |cs| {
      StepAddressed(hash, cs[i], payload, store);
      var step := EntryStep(hash, cs[i], payload, store);
      if step.Continue? {
        EntriesSpecAddressed(hash, cs, i + 1, step.payload, step.store);
      }
    }
  }

  lemma {:induction false} StepAddressed(hash: seq<byte> -> Digest, c: Node, payload: seq<byte>, store: Store)
    requires ContentAddressed(store, hash)
    ensures ContentAddressed(EntryStep(hash, c, payload, store).store, hash)
    ensures store.Keys <= EntryStep(hash, c, payload, store).store.Keys
    decreases c.children, 3
  {
    if c.fileType == Directory {
      TreeSpecAddressed(hash, c.children, store);
      DirectoryStep(hash, c, payload, store);
    } else if IsFile(c) {
      PutAddressed(store, hash, Blob, c.data);
      FileStep(hash, c, payload, store);
    }
  }

  // ---------------------------------------------------------------------------------------------
  // Commits (`write_commit`)
  // ---------------------------------------------------------------------------------------------

  /** Integer division rounding toward zero, as Rust's `/` on `i32`. */
  function TruncDiv(a: int, b: int): int
    requires b > 0
  {
    if a >= 0 then a / b else -((-a) / b)
  }

  /** The hours of an offset are the whole hours it spans, counted toward zero. */
  lemma HoursTowardZero(offset: int)
    ensures var h := TruncDiv(offset, 3600);
            && (offset >= 0 ==> 0 <= h * 3600 <= offset < h * 3600 + 3600)
            && (offset < 0 ==> h * 3600 - 3600 < offset <= h * 3600 <= 0)
  {
  }

  /** Two decimal digits for the hour: `{:0>2}` of its magnitude after the sign. */
  function TwoDigits(n: nat): string {
    PadLeft(Numerals.NatToString(n), 2, '0')
  }

  /** The hour-only zone `+HH`/`-HH` of an offset in seconds east of UTC. */
  function Timezone(offset: int): string {
    var hours := TruncDiv(offset, 3600);
    if hours >= 0 then "+" + TwoDigits(hours) else "-" + TwoDigits(-hours)
  }

  lemma TwoDigitsValue(n: nat)
    requires n < 100
    ensures var t := TwoDigits(n);
            |t| == 2 && Numerals.IsDigits(t) && Numerals.DigitsValue(t) == n
  {
    var t := TwoDigits(n);
    Numerals.NatToStringValue(n);
    if n < 10 {
      assert t == "0" + Numerals.NatToString(n);
      assert t[..1] == "0";
    }
  }

  /**
   * For any offset a clock can report (less than a day either way) the zone is a sign and two
   * digits, and it reads back as the offset's whole hours rounded toward zero; it is negative
   * only from a full hour west of UTC on.
   */
  lemma TimezoneForm(offset: int)
    requires -86400 < offset < 86400
    ensures var tz := Timezone(offset);
            && |tz| == 3 && (tz[0] == '+' || tz[0] == '-') && Numerals.IsDigits(tz[1..])
            && (tz[0] == '-' <==> offset <= -3600)
            && (if tz[0] == '-' then -1 else 1) * Numerals.DigitsValue(tz[1..]) == TruncDiv(offset, 3600)
  {
    var hours := TruncDiv(offset, 3600);
    HoursTowardZero(offset);
    var tz := Timezone(offset);
    if hours >= 0 {
      TwoDigitsValue(hours);
      assert tz[1..] == TwoDigits(hours);
    } else {
      TwoDigitsValue(-hours);
      assert tz[1..] == TwoDigits(-hours);
    }
  }

  /**
   * The zone keeps only whole hours: half an hour west of UTC is written `+00` and five and a half
   * hours east `+05`.
   */
  lemma TimezoneDropsMinutes()
    ensures Timezone(-1800) == "+00"
    ensures Timezone(19800) == "+05"
    ensures Timezone(-3600) == "-01"
  {
    assert TwoDigits(0) == "00";
    assert TwoDigits(5) == "05";
    assert TwoDigits(1) == "01";
  }

  /** `<role> <name> <<email>> <seconds> <zone>00`. */
  function IdentityLine(role: string, name: string, email: string, timestamp: int, zone: string): string {
    role + " " + name + " <" + email + "> " + Numerals.IntToString(timestamp) + " " + zone + "00"
  }

  /** Lines written one after the other, each ended by a newline, as successive `writeln!` do. */
  function Join(lines: seq<string>): string {
    if lines == [] then "" else Join(lines[..|lines| - 1]) + lines[|lines| - 1] + "\n"
  }

  /** The header lines of a commit: tree, the parent if any, author, committer. */
  function CommitHeaders(tree: string, parent: Option<string>, name: string, email: string,
                         timestamp: int, offset: int): seq<string>
  {
    var zone := Timezone(offset);
    ["tree " + tree] + ParentLines(parent)
    + [IdentityLine("author", name, email, timestamp, zone), IdentityLine("committer", name, email, timestamp, zone)]
  }

  /** The `parent` line, when there is a parent. */
  function ParentLines(parent: Option<string>): seq<string> {
    match parent
    case Some(p) => ["parent " + p]
    case None => []
  }

  /** The text `write_commit` hashes and stores: the headers, an empty line, the message and a newline. */
  function CommitText(tree: string, parent: Option<string>, name: string, email: string,
                      timestamp: int, offset: int, message: string): string
  {
    Join(CommitHeaders(tree, parent, name, email, timestamp, offset)) + "\n" + message + "\n"
  }

  datatype CommitError = NoConfigFile | NoAuthorName | NoAuthorEmail

  /** The commit text for a configuration, or the identity setting it lacks. */
  function CommitSpec(config: GitConfig.Config, tree: string, parent: Option<string>, message: string,
                      timestamp: int, offset: int): Result<string, CommitError>
  {
    match config.Get("user.name")
    case None => Err(NoAuthorName)
    case Some(name) =>
      match config.Get("user.email")
      case None => Err(NoAuthorEmail)
      case Some(email) => Ok(CommitText(tree, parent, name, email, timestamp, offset, message))
  }

  /** The first query `write_commit` makes looks up `name` in the `user` section. */
  lemma UserNameQuery(config: GitConfig.Config)
    ensures config.Get("user.name") == GitConfig.Lookup(config.sections, "user", "name")
  {
    GitConfig.GetSectionKey(config, "user", "name", "");
    assert "user" + "." + "name" == "user.name";
  }

  /** The second looks up `email` in the same section. */
  lemma UserEmailQuery(config: GitConfig.Config)
    ensures config.Get("user.email") == GitConfig.Lookup(config.sections, "user", "email")
  {
    GitConfig.GetSectionKey(config, "user", "email", "");
    assert "user" + "." + "email" == "user.email";
  }

  /**
   * A commit is made exactly when the `user` section of the configuration has both a `name` and an
   * `email` key, and they are its author and committer.
   */
  lemma CommitNeedsIdentity(config: GitConfig.Config, tree: string, parent: Option<string>, message: string,
                            timestamp: int, offset: int)
    ensures var name, email := GitConfig.Lookup(config.sections, "user", "name"), GitConfig.Lookup(config.sections, "user", "email");
            && (CommitSpec(config, tree, parent, message, timestamp, offset) == Err(NoAuthorName) <==> name.None?)
            && (CommitSpec(config, tree, parent, message, timestamp, offset).Ok? <==> name.Some? && email.Some?)
            && (name.Some? && email.Some? ==>
                  CommitSpec(config, tree, parent, message, timestamp, offset) ==
                    Ok(CommitText(tree, parent, name.value, email.value, timestamp, offset, message)))
  {
    UserNameQuery(config);
    UserEmailQuery(config);
  }

  /** A configuration file without any section header never yields a commit. */
  lemma NoHeaderNoCommit(lines: seq<GitConfig.LineRead>, tree: string, parent: Option<string>, message: string,
                         timestamp: int, offset: int)
    requires forall i :: 0 <= i < |lines| && lines[i].Line? ==> !GitConfig.IsHeader(lines[i].text)
    ensures CommitSpec(GitConfig.ParseLines(lines), tree, parent, message, timestamp, offset) == Err(NoAuthorName)
  {
    GitConfig.NoHeaderNoSections(GitConfig.Initial, lines);
    CommitNeedsIdentity(GitConfig.ParseLines(lines), tree, parent, message, timestamp, offset);
  }

  /** The pieces of a text between its newlines, like `str::split('\n')`. */
  function SplitLines(s: string): seq<string>
    decreases |s|
  {
    match IndexOf(s, '\n')
    case None => [s]
    case Some(k) => [s[..k]] + SplitLines(s[k + 1..])
  }

  lemma SplitLinesCons(a: string, b: string)
    requires '\n' !in a
    ensures SplitLines(a + "\n" + b) == [a] + SplitLines(b)
  {
    IndexOfAfter(a, '\n', b);
    var s := a + "\n" + b;
    assert s[..|a|] == a && s[|a| + 1..] == b;
  }

  lemma IdentityLineSingle(role: string, name: string, email: string, timestamp: int, zone: string)
    requires '\n' !in role && '\n' !in name && '\n' !in email && '\n' !in zone
    ensures '\n' !in IdentityLine(role, name, email, timestamp, zone)
  {
    var t := Numerals.IntToString(timestamp);
    assert '\n' !in t by {
      if timestamp < 0 {
        assert t == "-" + Numerals.NatToString(-timestamp);
      }
    }
  }

  lemma {:induction false} JoinCons(x: string, lines: seq<string>)
    ensures Join([x] + lines) == x + "\n" + Join(lines)
    decreases |lines|
  {
    if lines != [] {
      var init := lines[..|lines| - 1];
      JoinCons(x, init);
      assert ([x] + lines)[..|lines|] == [x] + init;
    } else {
      assert [x] + lines == [x];
      assert [x][..0] == [];
    }
  }

  /** Join after one more line is the earlier text and that line. */
  lemma JoinAppend(lines: seq<string>, x: string)
    ensures Join(lines + [x]) == Join(lines) + x + "\n"
  {
    assert (lines + [x])[..|lines|] == lines;
  }

  /** Splitting joined lines at the newlines gives the lines back. */
  lemma {:induction false} SplitJoin(lines: seq<string>, rest: string)
    requires forall i :: 0 <= i < |lines| ==> '\n' !in lines[i]
    ensures SplitLines(Join(lines) + rest) == lines + SplitLines(rest)
    decreases |lines|
  {
    if lines == [] {
      assert Join(lines) + rest == rest;
      assert lines + SplitLines(rest) == SplitLines(rest);
    } else {
      var x, tail := lines[0], lines[1..];
      assert lines == [x] + tail;
      assert forall i :: 0 <= i < |tail| ==> tail[i] == lines[i + 1];
      SplitJoin(tail, rest);
      SplitJoinStep(x, tail, rest);
    }
  }

  /** One more line in front of lines that split back. */
  lemma SplitJoinStep(x: string, tail: seq<string>, rest: string)
    requires '\n' !in x && SplitLines(Join(tail) + rest) == tail + SplitLines(rest)
    ensures SplitLines(Join([x] + tail) + rest) == [x] + tail + SplitLines(rest)
  {
    var u, t := x + "\n", Join(tail) + rest;
    assert Join([x] + tail) + rest == u + t by {
      JoinCons(x, tail);
      Assoc(u, Join(tail), rest);
    }
    SplitLinesCons(x, t);
    assert SplitLines(u + t) == [x] + (tail + SplitLines(rest));
    Assoc([x], tail, SplitLines(rest));
  }

  /** No header line of a commit breaks across lines when the names and hashes in it do not. */
  lemma HeadersSingleLine(tree: string, parent: Option<string>, name: string, email: string,
                          timestamp: int, offset: int)
    requires '\n' !in tree && '\n' !in name && '\n' !in email && (parent.Some? ==> '\n' !in parent.value)
    ensures var headers := CommitHeaders(tree, parent, name, email, timestamp, offset);
            forall i :: 0 <= i < |headers| ==> '\n' !in headers[i]
  {
    var zone := Timezone(offset);
    ZoneSingleLine(offset);
    var author, committer := IdentityLine("author", name, email, timestamp, zone), IdentityLine("committer", name, email, timestamp, zone);
    IdentityLineSingle("author", name, email, timestamp, zone);
    IdentityLineSingle("committer", name, email, timestamp, zone);
    var first := "tree " + tree;
    LabelSingle("tree ", tree);
    HeadersAre(tree, parent, name, email, timestamp, offset, zone);
    match parent {
      case Some(p) =>
        LabelSingle("parent ", p);
        FourSingle(first, "parent " + p, author, committer);
      case None =>
        ThreeSingle(first, author, committer);
    }
  }

  /** The zone is a sign and digits. */
  lemma ZoneSingleLine(offset: int)
    ensures '\n' !in Timezone(offset)
  {
    var hours := TruncDiv(offset, 3600);
    if hours >= 0 {
      TwoDigitsSingleLine(hours);
      assert Timezone(offset) == "+" + TwoDigits(hours);
    } else {
      TwoDigitsSingleLine(-hours);
      assert Timezone(offset) == "-" + TwoDigits(-hours);
    }
  }

  lemma TwoDigitsSingleLine(n: nat)
    ensures '\n' !in TwoDigits(n)
  {
    PaddedDigits(Numerals.NatToString(n));
  }

  /** Digits padded with zeros are still digits. */
  lemma PaddedDigits(text: string)
    requires Numerals.IsDigits(text)
    ensures Numerals.IsDigits(PadLeft(text, 2, '0'))
  {
    var digits := PadLeft(text, 2, '0');
    var pad := |digits| - |text|;
    forall k | 0 <= k < |digits|
      ensures Numerals.IsDigit(digits[k])
    {
      if k >= pad {
        assert digits[k] == digits[pad..][k - pad] == text[k - pad];
      }
    }
  }

  /**
   * Line by line, the commit text is its header lines (tree, parent, author, committer, in that
   * order), an empty line, and then the message's own lines.
   */
  lemma CommitLines(tree: string, parent: Option<string>, name: string, email: string,
                    timestamp: int, offset: int, message: string)
    requires '\n' !in tree && '\n' !in name && '\n' !in email && (parent.Some? ==> '\n' !in parent.value)
    ensures SplitLines(CommitText(tree, parent, name, email, timestamp, offset, message)) ==
              CommitHeaders(tree, parent, name, email, timestamp, offset) + [""] + SplitLines(message + "\n")
  {
    var headers := CommitHeaders(tree, parent, name, email, timestamp, offset);
    HeadersSingleLine(tree, parent, name, email, timestamp, offset);
    var rest := message + "\n";
    SplitJoin(headers, "\n" + rest);
    SplitLinesCons("", rest);
    assert "" + "\n" + rest == "\n" + rest;
    Regroup(Join(headers), "\n", message, "\n");
    Assoc("\n", message, "\n");
    Assoc(headers, [""], SplitLines(rest));
  }

  /**
   * The text `write_commit` builds with successive `writeln!`: tree, parent, author and committer
   * lines, an empty line and the message.
   */
  method BuildCommit(tree: string, parent: Option<string>, name: string, email: string,
                     timestamp: int, offset: int, message: string) returns (commit: string)
    ensures commit == CommitText(tree, parent, name, email, timestamp, offset, message)
  {
    var treeLine := "tree " + tree;
    ghost var lines: seq<string> := [treeLine];
    JoinOne(treeLine);
    commit := treeLine + "\n";
    if parent.Some? {
      var parentLine := "parent " + parent.value;
      JoinAppend(lines, parentLine);
      commit := commit + parentLine + "\n";
      lines := lines + [parentLine];
    }
    ghost var parentLines := ParentLines(parent);
    assert lines == [treeLine] + parentLines;
    var hours := TruncDiv(offset, 3600);
    var zone := if hours >= 0 then "+" + TwoDigits(hours) else "-" + TwoDigits(-hours);
    var author := IdentityLine("author", name, email, timestamp, zone);
    var committer := IdentityLine("committer", name, email, timestamp, zone);
    JoinAppend(lines, author);
    commit := commit + author + "\n";
    JoinAppend(lines + [author], committer);
    commit := commit + committer + "\n";
    assert zone == Timezone(offset);
    HeadersAre(tree, parent, name, email, timestamp, offset, zone);
    LinesAssoc(treeLine, parentLines, author, committer);
    commit := commit + "\n" + message + "\n";
  }

  lemma JoinOne(x: string)
    ensures Join([x]) == x + "\n"
  {
    JoinAppend([], x);
    assert [] + [x] == [x];
  }

  /** The header lines, for the zone of the offset. */
  lemma HeadersAre(tree: string, parent: Option<string>, name: string, email: string,
                   timestamp: int, offset: int, zone: string)
    requires zone == Timezone(offset)
    ensures CommitHeaders(tree, parent, name, email, timestamp, offset) ==
              ["tree " + tree] + ParentLines(parent)
              + [IdentityLine("author", name, email, timestamp, zone), IdentityLine("committer", name, email, timestamp, zone)]
  {
  }

  /** The object directory, with writes that go through a SHA-1 given to it. */
  class ObjectStore {
    const hash: seq<byte> -> Digest
    var objects: Store

    ghost predicate Valid()
      reads this
    {
      ContentAddressed(objects, hash)
    }

    constructor (hash: seq<byte> -> Digest)
      ensures this.hash == hash && objects == map[] && Valid()
    {
      this.hash := hash;
      objects := map[];
    }

    /**
     * `calc_hash_object`: the digest of the blob framing of a file's bytes, and, when `save`
     * is set, that frame stored at its digest's path.
     */
    method HashObject(data: seq<byte>, save: bool) returns (d: Digest)
      requires Valid()
      modifies this
      ensures d == hash(Frame(Blob, data))
      ensures objects == if save then Put(old(objects), hash, Frame(Blob, data)) else old(objects)
      ensures Valid()
    {
      var stream := KindTag(Blob) + [SPACE] + DecimalBytes(|data|) + [NUL];
      stream := stream + data;
      d := hash(stream);
      if save {
        PutAddressed(objects, hash, Blob, data);
        objects := objects[ObjectPath(d) := stream];
      }
    }

    /** `write_tree`: the payload is grown entry by entry, recursing into subdirectories. */
    method WriteTree(cs: seq<Node>) returns (r: Result<Option<Digest>, WriteError>)
      requires Valid()
      modifies this
      ensures TreeSpec(hash, cs, old(objects)) == TreeResult(r, objects)
      ensures Valid()
      decreases cs, 1
    {
      ghost var spec := EntriesSpec(hash, cs, 0, [], objects);
      var buf: seq<byte> := [];
      var i := 0;
      while i < |cs|
        invariant 0 <= i <= |cs| && Valid()
        invariant EntriesSpec(hash, cs, i, buf, objects) == spec
        decreases |cs| - i
      {
        ghost var before, stored := buf, objects;
        var next := WriteEntry(cs[i], buf);
        if next.Err? {
          assert spec == Fail(next.error, EntryStep(hash, cs[i], before, stored).payload, objects);
          return Err(next.error);
        }
        buf := next.value;
        assert EntriesSpec(hash, cs, i, before, stored) == EntriesSpec(hash, cs, i + 1, buf, objects);
        i := i + 1;
      }
      assert spec == Continue(buf, objects);
      if buf == [] {
        return Ok(None);
      }
      var frame := KindTag(Tree) + [SPACE] + DecimalBytes(|buf|) + [NUL] + buf;
      assert frame == Frame(Tree, buf);
      var d := hash(frame);
      PutAddressed(objects, hash, Tree, buf);
      objects := objects[ObjectPath(d) := frame];
      return Ok(Some(d));
    }

    /**
     * One pass of `write_tree`'s loop: the entry's `<mode> <name>\0` header, then the digest of
     * its blob, or of its subtree when that is not empty.
     */
    method WriteEntry(c: Node, buf: seq<byte>) returns (r: Result<seq<byte>, WriteError>)
      requires Valid()
      modifies this
      ensures var step := EntryStep(hash, c, buf, old(objects));
              && step.store == objects
              && (r.Ok? <==> step.Continue?)
              && (r.Ok? ==> step.payload == r.value)
              && (r.Err? ==> step.error == r.error)
      ensures Valid()
      decreases c.children, 2
    {
      var mode := ModeOf(c.fileType, c.perm);
      if mode.Err? {
        return Err(mode.error);
      }
      var withHeader := buf + EntryHeader(mode.value, c.name);
      if c.fileType == Directory {
        var sub := WriteTree(c.children);
        match sub
        case Err(e) =>
          return Err(e);
        case Ok(None) =>
          return Ok(withHeader);
        case Ok(Some(d)) =>
          return Ok(withHeader + d);
      } else {
        var d := HashObject(c.data, true);
        return Ok(withHeader + d);
      }
    }

    /**
     * `write_commit`: reads the configuration (None when `.git/config` cannot be opened), takes
     * the author from `user.name` and `user.email`, builds the commit text line by line and stores
     * its commit object. The clock is given as `timestamp` and `offset` (seconds east of UTC).
     */
    method WriteCommit(configFile: Option<seq<GitConfig.LineRead>>, treeHash: string, parent: Option<string>,
                       message: string, timestamp: int, offset: int) returns (r: Result<Digest, CommitError>)
      requires Valid()
      modifies this
      ensures Valid()
      ensures r.Err? ==> objects == old(objects)
      ensures configFile.None? ==> r == Err(NoConfigFile)
      ensures configFile.Some? ==>
                match CommitSpec(GitConfig.ParseLines(configFile.value), treeHash, parent, message, timestamp, offset)
                case Err(e) => r == Err(e)
                case Ok(text) =>
                  var frame := Frame(Commit, Utf8.Encode(text));
                  r == Ok(hash(frame)) && objects == Put(old(objects), hash, frame)
    {
      if configFile.None? {
        return Err(NoConfigFile);
      }
      var config := GitConfig.ParseConfig(configFile.value);
      var name := config.Get("user.name");
      if name.None? {
        return Err(NoAuthorName);
      }
      var email := config.Get("user.email");
      if email.None? {
        return Err(NoAuthorEmail);
      }
      var commit := BuildCommit(treeHash, parent, name.value, email.value, timestamp, offset, message);
      var payload := Utf8.Encode(commit);
      var frame := KindTag(Commit) + [SPACE] + DecimalBytes(|payload|) + [NUL] + payload;
      var d := hash(frame);
      PutAddressed(objects, hash, Commit, payload);
      objects := objects[ObjectPath(d) := frame];
      return Ok(d);
    }
  }

  // ---------------------------------------------------------------------------------------------
  // Sequence lemmas: proof aids about concatenation and slicing, with no content of their own
  // ---------------------------------------------------------------------------------------------

  /** A sequence cut at position i, and its remainder cut again at position j. */
  lemma SplitTwice<T>(s: seq<T>, i: nat, j: nat)
    requires i < |s| && j < |s| - i - 1
    ensures s == s[..i] + [s[i]] + s[i + 1..][..j] + [s[i + 1..][j]] + s[i + 1..][j + 1..]
  {
    var rest := s[i + 1..];
    SplitAt(rest, j);
    SplitAt(s, i);
    assert s == s[..i] + [s[i]] + (rest[..j] + [rest[j]] + rest[j + 1..]);
  }

  /** A sequence is what comes before position i, the element there, and what comes after. */
  lemma SplitAt<T>(s: seq<T>, i: nat)
    requires i < |s|
    ensures s == s[..i] + [s[i]] + s[i + 1..]
  {
  }

  lemma AppendStartsWith<T>(a: seq<T>, b: seq<T>, c: seq<T>)
    ensures StartsWith(a + b, a) && StartsWith(a + b + c, a)
  {
    assert (a + b)[..|a|] == a;
    assert (a + b + c)[..|a|] == a;
  }

  lemma Assoc<T>(a: seq<T>, b: seq<T>, c: seq<T>)
    ensures a + (b + c) == a + b + c
  {
  }

  lemma Regroup<T>(a: seq<T>, b: seq<T>, c: seq<T>, d: seq<T>)
    ensures a + b + c + d == a + (b + c + d)
  {
  }

  /** Sequences that differ at position k differ, whatever follows. */
  lemma DifferAt<T>(x: seq<T>, y: seq<T>, u: seq<T>, v: seq<T>, k: nat)
    requires k < |x| && k < |y| && x[k] != y[k]
    ensures x + u != y + v
  {
    assert (x + u)[k] == x[k] && (y + v)[k] == y[k];
  }

  lemma IndexLeft<T>(a: seq<T>, b: seq<T>, k: nat)
    requires k < |a|
    ensures (a + b)[k] == a[k]
  {
  }

  lemma PairTail<T>(a: T, b: T)
    ensures [a, b][1..] == [b]
  {
  }

  lemma LabelSingle(prefix: string, value: string)
    requires '\n' !in prefix && '\n' !in value
    ensures '\n' !in prefix + value
  {
  }

  lemma ThreeSingle(a: string, c: string, d: string)
    requires '\n' !in a && '\n' !in c && '\n' !in d
    ensures var lines := [a] + [] + [c, d];
            forall i :: 0 <= i < |lines| ==> '\n' !in lines[i]
  {
    assert [a] + [] + [c, d] == [a, c, d];
  }

  lemma FourSingle(a: string, b: string, c: string, d: string)
    requires '\n' !in a && '\n' !in b && '\n' !in c && '\n' !in d
    ensures var lines := [a] + [b] + [c, d];
            forall i :: 0 <= i < |lines| ==> '\n' !in lines[i]
  {
    assert [a] + [b] + [c, d] == [a, b, c, d];
  }

  lemma LinesAssoc<T>(t: T, p: seq<T>, a: T, c: T)
    ensures [t] + p + [a] + [c] == [t] + p + [a, c]
  {
  }
}
