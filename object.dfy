/**
 * Object identification (src/object.rs): the closed set of object kinds, resolution of a full or
 * abbreviated hex digest to a file of the object directory, and the parsing and rendering of one
 * tree entry.
 */
module GitObject {
  import opened Wrappers
  import opened Bytes
  import Hex
  import Utf8

  datatype ObjectKind = Blob | Tree | Commit

  /** The name a kind has in an object header. */
  function KindName(k: ObjectKind): string {
    match k
    case Blob => "blob"
    case Tree => "tree"
    case Commit => "commit"
  }

  datatype KindError = UnknownObjectType

  /** `ObjectKind::from_str`: exactly the three lowercase kind names are accepted. */
  function FromStr(s: string): (r: Result<ObjectKind, KindError>)
    ensures r.Ok? <==> s == "blob" || s == "tree" || s == "commit"
    ensures r.Ok? ==> KindName(r.value) == s
  {
    match s
    case "blob" => Ok(Blob)
    case "tree" => Ok(Tree)
    case "commit" => Ok(Commit)
    case _ => Err(UnknownObjectType)
  }

  /** Parsing a kind's own name gives that kind back. */
  lemma FromStrKindName(k: ObjectKind)
    ensures FromStr(KindName(k)) == Ok(k)
  {
    match k
    case Blob =>
    case Tree =>
    case Commit =>
  }

  /** A SHA-1 digest: 20 raw bytes. */
  type Digest = s: seq<byte> | |s| == 20
    witness [0, 0, 0, 0, 0, 0, 0, 0, 0, 0, 0, 0, 0, 0, 0, 0, 0, 0, 0, 0]

  const ObjectsDir: string := ".git/objects/"

  // ---------------------------------------------------------------------------------------------
  // Resolving a hash or hash prefix (`open`)
  // ---------------------------------------------------------------------------------------------

  datatype OpenError = BadLength | NonHex | NotFound | Ambiguous

  /** The entries of a directory listing that start with prefix, in listing order. */
  function Matches(listing: seq<string>, prefix: string): (m: seq<string>)
    ensures |m| <= |listing|
    ensures forall i :: 0 <= i < |m| ==> StartsWith(m[i], prefix) && m[i] in listing
  {
    if listing == [] then []
    else
      var last := listing[|listing| - 1];
      Matches(listing[..|listing| - 1], prefix) + (if StartsWith(last, prefix) then [last] else [])
  }

  /** Text that `hex::decode` accepts is ASCII, so its characters are its bytes. */
  lemma HexTextIsAscii(s: string)
    requires Hex.Decode(Utf8.Encode(s)).Some?
    ensures IsAscii(s) && |s| == |Utf8.Encode(s)|
  {
    Utf8.AsciiOnlyEncoding(s);
  }

  /** The well-formedness test `open` applies before it looks at the object directory. */
  predicate WellFormedHash(objectHash: string) {
    var raw := Utf8.Encode(objectHash);
    4 <= |raw| <= 40 && Hex.Decode(raw).Some?
  }

  /** The bucket directory of a well-formed hash: its first two characters. */
  function BucketDir(objectHash: string): string
    requires WellFormedHash(objectHash)
  {
    HexTextIsAscii(objectHash);
    ObjectsDir + objectHash[..2]
  }

  /** The file-name prefix of a well-formed hash: everything after its first two characters. */
  function NamePrefix(objectHash: string): string
    requires WellFormedHash(objectHash)
  {
    HexTextIsAscii(objectHash);
    objectHash[2..]
  }

  /** The one file of a listing that starts with prefix, or why there is not exactly one. */
  function Pick(listing: seq<string>, prefix: string): Result<string, OpenError> {
    var m := Matches(listing, prefix);
    if |m| == 0 then Err(NotFound)
    else if |m| == 1 then Ok(m[0])
    else Err(Ambiguous)
  }

  /**
   * What `open` resolves a hash to, over `dirs`, the listings of the bucket directories that
   * exist (each in the order `read_dir` yields it): the path of the one matching file, or why
   * there is none.
   */
  function Resolve(objectHash: string, dirs: map<string, seq<string>>): Result<string, OpenError> {
    var raw := Utf8.Encode(objectHash);
    if |raw| < 4 || |raw| > 40 then Err(BadLength)
    else if Hex.Decode(raw).None? then Err(NonHex)
    else
      var dir := BucketDir(objectHash);
      if dir !in dirs then Err(NotFound)
      else
        match Pick(dirs[dir], NamePrefix(objectHash))
        case Ok(fileName) => Ok(dir + "/" + fileName)
        case Err(e) => Err(e)
  }

  lemma {:induction false} MatchesAppend(a: seq<string>, b: seq<string>, prefix: string)
    ensures Matches(a + b, prefix) == Matches(a, prefix) + Matches(b, prefix)
    decreases |b|
  {
    if b == [] {
      assert a + b == a;
    } else {
      var b' := b[..|b| - 1];
      assert (a + b)[..|a + b| - 1] == a + b';
      assert (a + b)[|a + b| - 1] == b[|b| - 1];
      MatchesAppend(a, b', prefix);
    }
  }

  /**
   * The scan of a bucket inside `open` (src/object.rs:49-67): it counts the matching file names,
   * gives up at the second, and otherwise yields the first; the result is Pick's.
   */
  method ScanBucket(listing: seq<string>, namePrefix: string) returns (r: Result<string, OpenError>)
    ensures r == Pick(listing, namePrefix)
  {
    var count := 0;
    var buf: seq<string> := [];
    var i := 0;
    while i < |listing|
      invariant 0 <= i <= |listing|
      invariant buf == Matches(listing[..i], namePrefix)
      invariant count == |buf| <= 1
    {
      var fileName := listing[i];
      ghost var seen := listing[..i + 1];
      assert seen[..i] == listing[..i] && seen[i] == fileName;
      assert Matches(seen, namePrefix) == buf + (if StartsWith(fileName, namePrefix) then [fileName] else []);
      if StartsWith(fileName, namePrefix) {
        count := count + 1;
        if count > 1 {
          assert |Matches(seen, namePrefix)| == 2;
          TakeDrop(listing, i + 1);
          MatchesAppend(seen, listing[i + 1..], namePrefix);
          assert |Matches(listing, namePrefix)| >= 2;
          return Err(Ambiguous);
        }
        buf := buf + [fileName];
      }
      i := i + 1;
    }
    assert listing[..i] == listing;
    if |buf| == 0 {
      return Err(NotFound);
    }
    return Ok(buf[0]);
  }

  /** `open` (src/object.rs:39-69): validation first, then the bucket scan; the result is Resolve's. */
  method Open(objectHash: string, dirs: map<string, seq<string>>)
    returns (r: Result<string, OpenError>)
    ensures r == Resolve(objectHash, dirs)
  {
    var raw := Utf8.Encode(objectHash);
    if |raw| < 4 || |raw| > 40 {
      return Err(BadLength);
    }
    if Hex.Decode(raw).None? {
      return Err(NonHex);
    }
    HexTextIsAscii(objectHash);
    var dirName := ObjectsDir + objectHash[..2];
    var namePrefix := objectHash[2..];
    if dirName !in dirs {
      return Err(NotFound);
    }
    var found := ScanBucket(dirs[dirName], namePrefix);
    match found
    case Ok(fileName) => r := Ok(dirName + "/" + fileName);
    case Err(e) => r := Err(e);
  }

  lemma {:induction false} MatchesNone(listing: seq<string>, prefix: string)
    ensures |Matches(listing, prefix)| == 0 <==>
            forall i :: 0 <= i < |listing| ==> !StartsWith(listing[i], prefix)
  {
    if listing != [] {
      var init := listing[..|listing| - 1];
      MatchesNone(init, prefix);
      assert forall i :: 0 <= i < |init| ==> init[i] == listing[i];
    }
  }

  lemma {:induction false} MatchesMany(listing: seq<string>, prefix: string)
    ensures |Matches(listing, prefix)| >= 2 <==>
            exists i, j :: 0 <= i < j < |listing| && StartsWith(listing[i], prefix) && StartsWith(listing[j], prefix)
  {
    if listing != [] {
      var n := |listing|;
      var init := listing[..n - 1];
      MatchesMany(init, prefix);
      MatchesNone(init, prefix);
      assert forall i :: 0 <= i < |init| ==> init[i] == listing[i];
      if exists i, j :: 0 <= i < j < n && StartsWith(listing[i], prefix) && StartsWith(listing[j], prefix) {
        var i, j :| 0 <= i < j < n && StartsWith(listing[i], prefix) && StartsWith(listing[j], prefix);
        if j < n - 1 {
          assert StartsWith(init[i], prefix) && StartsWith(init[j], prefix);
        } else {
          assert StartsWith(init[i], prefix);
        }
      }
      if |Matches(listing, prefix)| >= 2 && |Matches(init, prefix)| < 2 {
        assert StartsWith(listing[n - 1], prefix);
        var i :| 0 <= i < |init| && StartsWith(init[i], prefix);
        assert StartsWith(listing[i], prefix);
      }
    }
  }

  lemma {:induction false} MatchesOne(listing: seq<string>, prefix: string)
    requires |Matches(listing, prefix)| == 1
    ensures exists i :: 0 <= i < |listing| && listing[i] == Matches(listing, prefix)[0] &&
                        forall j :: 0 <= j < |listing| && StartsWith(listing[j], prefix) ==> j == i
  {
    var n := |listing|;
    var init := listing[..n - 1];
    assert forall i :: 0 <= i < |init| ==> init[i] == listing[i];
    if StartsWith(listing[n - 1], prefix) {
      MatchesNone(init, prefix);
      assert forall j :: 0 <= j < n - 1 ==> !StartsWith(listing[j], prefix);
      assert listing[n - 1] == Matches(listing, prefix)[0];
    } else {
      MatchesOne(init, prefix);
      var i :| 0 <= i < |init| && init[i] == Matches(init, prefix)[0] &&
               forall j :: 0 <= j < |init| && StartsWith(init[j], prefix) ==> j == i;
      assert listing[i] == Matches(listing, prefix)[0];
      forall j | 0 <= j < n && StartsWith(listing[j], prefix) ensures j == i {
        if j < n - 1 {
          assert StartsWith(init[j], prefix);
        }
      }
    }
  }

  /** A hash outside 4 to 40 bytes, or one `hex::decode` rejects, fails before any lookup. */
  lemma ResolveMalformed(objectHash: string, dirs: map<string, seq<string>>)
    ensures var raw := Utf8.Encode(objectHash);
            (|raw| < 4 || |raw| > 40) <==> Resolve(objectHash, dirs) == Err(BadLength)
    ensures var raw := Utf8.Encode(objectHash);
            (4 <= |raw| <= 40 && Hex.Decode(raw).None?) <==> Resolve(objectHash, dirs) == Err(NonHex)
    ensures !WellFormedHash(objectHash) ==> Resolve(objectHash, dirs).Err?
  {
  }

  /** A missing bucket directory, or a bucket with no file starting with the prefix, is NotFound. */
  lemma ResolveNotFound(objectHash: string, dirs: map<string, seq<string>>)
    requires WellFormedHash(objectHash)
    ensures var dir, prefix := BucketDir(objectHash), NamePrefix(objectHash);
            Resolve(objectHash, dirs) == Err(NotFound) <==>
            (dir !in dirs || forall i :: 0 <= i < |dirs[dir]| ==> !StartsWith(dirs[dir][i], prefix))
  {
    var dir := BucketDir(objectHash);
    if dir in dirs {
      MatchesNone(dirs[dir], NamePrefix(objectHash));
    }
  }

  /** Two files of the bucket starting with the prefix make the hash Ambiguous. */
  lemma ResolveAmbiguous(objectHash: string, dirs: map<string, seq<string>>)
    requires WellFormedHash(objectHash)
    ensures var dir, prefix := BucketDir(objectHash), NamePrefix(objectHash);
            Resolve(objectHash, dirs) == Err(Ambiguous) <==>
            (dir in dirs &&
             exists i, j :: 0 <= i < j < |dirs[dir]| &&
               StartsWith(dirs[dir][i], prefix) && StartsWith(dirs[dir][j], prefix))
  {
    var dir := BucketDir(objectHash);
    if dir in dirs {
      MatchesMany(dirs[dir], NamePrefix(objectHash));
    }
  }

  /** A well-formed hash resolves exactly when one file of its bucket starts with the prefix, to that file. */
  lemma ResolveFound(objectHash: string, dirs: map<string, seq<string>>, i: nat)
    requires WellFormedHash(objectHash)
    requires var dir := BucketDir(objectHash); dir in dirs && i < |dirs[dir]|
    requires var dir, prefix := BucketDir(objectHash), NamePrefix(objectHash);
             StartsWith(dirs[dir][i], prefix)
    ensures var dir, prefix := BucketDir(objectHash), NamePrefix(objectHash);
            Resolve(objectHash, dirs) == Ok(dir + "/" + dirs[dir][i]) <==>
            (forall j :: 0 <= j < |dirs[dir]| && StartsWith(dirs[dir][j], prefix) ==> j == i)
  {
    var dir, prefix := BucketDir(objectHash), NamePrefix(objectHash);
    var l := dirs[dir];
    MatchesNone(l, prefix);
    MatchesMany(l, prefix);
    if |Matches(l, prefix)| == 1 {
      MatchesOne(l, prefix);
    }
    if forall j :: 0 <= j < |l| && StartsWith(l[j], prefix) ==> j == i {
      assert !exists i', j' :: 0 <= i' < j' < |l| && StartsWith(l[i'], prefix) && StartsWith(l[j'], prefix);
    } else {
      var j :| 0 <= j < |l| && StartsWith(l[j], prefix) && j != i;
      if j < i {
        assert 0 <= j < i < |l| && StartsWith(l[j], prefix) && StartsWith(l[i], prefix);
      } else {
        assert 0 <= i < j < |l| && StartsWith(l[i], prefix) && StartsWith(l[j], prefix);
      }
    }
  }

  // ---------------------------------------------------------------------------------------------
  // Tree entries (`TreeEntry::parse`, `impl Display for TreeEntry`)
  // ---------------------------------------------------------------------------------------------

  /** An entry read back from a tree payload; `hash` is the hex text of the digest. */
  datatype TreeEntry = TreeEntry(mode: seq<byte>, kind: ObjectKind, name: seq<byte>, hash: string)

  datatype EntryError = InteriorNul | NotNulTerminated | NotUtf8 | UnknownHeader | UnknownMode

  /** The four modes a tree entry may carry, as the ASCII text of their octal-looking numbers. */
  const TreeModeText: seq<byte> := [0x34, 0x30, 0x30, 0x30, 0x30]              // "40000"
  const RegularModeText: seq<byte> := [0x31, 0x30, 0x30, 0x36, 0x34, 0x34]     // "100644"
  const ExecutableModeText: seq<byte> := [0x31, 0x30, 0x30, 0x37, 0x35, 0x35]  // "100755"
  const SymlinkModeText: seq<byte> := [0x31, 0x32, 0x30, 0x30, 0x30, 0x30]     // "120000"

  /** The kind a tree-entry mode stands for: directories are trees, files and symlinks blobs. */
  function ModeKind(mode: seq<byte>): (k: Option<ObjectKind>)
    ensures k.Some? ==> k.value != Commit && Utf8.AllAscii(mode) && SPACE !in mode && NUL !in mode && TAB !in mode
    ensures k == Some(Tree) <==> mode == TreeModeText
    ensures k == Some(Blob) <==> mode == RegularModeText || mode == ExecutableModeText || mode == SymlinkModeText
    ensures k.Some? && k.value != Tree ==> |mode| == 6
  {
    if mode == TreeModeText then Some(Tree)
    else if mode == RegularModeText || mode == ExecutableModeText || mode == SymlinkModeText then Some(Blob)
    else None
  }

  /**
   * `TreeEntry::parse`: the header must be a C string (its only NUL the last byte) of valid UTF-8,
   * split at its first space into a known mode and a name.
   */
  function ParseEntry(modeName: seq<byte>, hash: Digest): (r: Result<TreeEntry, EntryError>)
    ensures r.Ok? ==> modeName == r.value.mode + [SPACE] + r.value.name + [NUL]
    ensures r.Ok? ==> NUL !in r.value.name && Utf8.IsValid(r.value.name)
    ensures r.Ok? ==> ModeKind(r.value.mode) == Some(r.value.kind) && r.value.hash == Hex.Encode(hash)
  {
    match IndexOf(modeName, NUL)
    case None => Err(NotNulTerminated)
    case Some(k) =>
      if k != |modeName| - 1 then Err(InteriorNul)
      else
        var text := modeName[..k];
        if !Utf8.IsValid(text) then Err(NotUtf8)
        else
          match IndexOf(text, SPACE)
          case None => Err(UnknownHeader)
          case Some(i) =>
            var mode, name := text[..i], text[i + 1..];
            assert text == (mode + [SPACE]) + name;
            assert modeName == text + [NUL];
            match ModeKind(mode)
            case None => Err(UnknownMode)
            case Some(kind) =>
              Utf8.AsciiPrefixOfValid(mode + [SPACE], name);
              Ok(TreeEntry(mode, kind, name, Hex.Encode(hash)))
  }

  /**
   * The converse of ParseEntry's contract: every `mode SP name NUL` header with a known mode and a
   * NUL-free, well-formed UTF-8 name parses, to exactly that mode and name.
   */
  lemma ParseEntryOfHeader(mode: seq<byte>, name: seq<byte>, hash: Digest)
    requires ModeKind(mode).Some? && NUL !in name && Utf8.IsValid(name)
    ensures ParseEntry(mode + [SPACE] + name + [NUL], hash) ==
            Ok(TreeEntry(mode, ModeKind(mode).value, name, Hex.Encode(hash)))
  {
    var text := mode + [SPACE] + name;
    assert NUL !in text;
    CStringOf(text);
    Utf8.AsciiPrefixIsValid(mode + [SPACE], name);
    SplitAtFirstSpace(mode, name);
  }

  /** A text with no NUL, NUL-terminated: its only NUL is the last byte, and before it is the text. */
  lemma CStringOf(text: seq<byte>)
    requires NUL !in text
    ensures IndexOf(text + [NUL], NUL) == Some(|text|) && (text + [NUL])[..|text|] == text
  {
    IndexOfAfter(text, NUL, []);
    assert text + [NUL] + [] == text + [NUL];
  }

  /** `split_once(' ')` of `mode SP name` for a mode without a space gives the mode and the name. */
  lemma SplitAtFirstSpace(mode: seq<byte>, name: seq<byte>)
    requires SPACE !in mode
    ensures var text := mode + [SPACE] + name;
            IndexOf(text, SPACE) == Some(|mode|) && text[..|mode|] == mode && text[|mode| + 1..] == name
  {
    IndexOfAfter(mode, SPACE, name);
  }

  /** The `Display` line of an entry: `{:0>6} {kind} {hash}\t{name}`. */
  function Display(e: TreeEntry): seq<byte> {
    var padded: seq<byte> := PadLeft(e.mode, 6, '0' as int);
    var kind: seq<byte> := Utf8.Encode(KindName(e.kind));
    var hex: seq<byte> := Utf8.Encode(e.hash);
    padded + [SPACE] + kind + [SPACE] + hex + [TAB] + e.name
  }

  /** Where the columns of a rendered line fall, for any pieces without a TAB before the name. */
  lemma LineLayout(padded: seq<byte>, kind: seq<byte>, hex: seq<byte>, name: seq<byte>)
    requires |padded| == 6 && TAB !in padded && TAB !in kind && TAB !in hex
    ensures var line := padded + [SPACE] + kind + [SPACE] + hex + [TAB] + name;
            var tab := 6 + 1 + |kind| + 1 + |hex|;
            var k := |kind|;
            && line[..6] == padded && line[6] == SPACE
            && line[7..7 + k] == kind && line[7 + k] == SPACE && line[8 + k..tab] == hex
            && IndexOf(line, TAB) == Some(tab) && line[tab + 1..] == name
  {
    var head := padded + [SPACE] + kind + [SPACE] + hex;
    assert TAB !in head;
    IndexOfAfter(head, TAB, name);
    var line := head + [TAB] + name;
    var k := |kind|;
    assert line[..6] == head[..6] == padded;
    assert line[6] == head[6] == SPACE;
    assert line[7..7 + k] == head[7..7 + k] == kind;
    assert line[7 + k] == head[7 + k] == SPACE;
    assert line[8 + k..|head|] == head[8 + k..] == hex;
    assert line[|head| + 1..] == name;
  }

  lemma KindNameBytes(k: ObjectKind)
    ensures |Utf8.Encode(KindName(k))| == |KindName(k)| && TAB !in Utf8.Encode(KindName(k))
  {
    match k
    case Blob => Utf8.AsciiText(KindName(k), [0x62, 0x6c, 0x6f, 0x62]);
    case Tree => Utf8.AsciiText(KindName(k), [0x74, 0x72, 0x65, 0x65]);
    case Commit => Utf8.AsciiText(KindName(k), [0x63, 0x6f, 0x6d, 0x6d, 0x69, 0x74]);
  }

  lemma HexBytes(b: seq<byte>)
    ensures |Utf8.Encode(Hex.Encode(b))| == 2 * |b| && TAB !in Utf8.Encode(Hex.Encode(b))
  {
    Utf8.EncodeAscii(Hex.Encode(b));
  }

  lemma PaddedMode(mode: seq<byte>)
    requires ModeKind(mode).Some?
    ensures var padded := PadLeft(mode, 6, '0' as int);
            |padded| == 6 && TAB !in padded &&
            padded == if mode == TreeModeText then [0x30] + TreeModeText else mode
  {
  }

  /**
   * The line of an entry with a known mode has the zero-padded mode in its first six columns (so
   * a directory shows `040000`), then a space, the kind's name, a space and the 40 hex digits of
   * the hash; the first TAB comes right after them, and everything after that TAB is the name.
   */
  lemma DisplayColumns(e: TreeEntry, hash: Digest)
    requires ModeKind(e.mode) == Some(e.kind) && e.hash == Hex.Encode(hash)
    ensures var line := Display(e);
            var k := |KindName(e.kind)|;
            var tab := 6 + 1 + k + 1 + 40;
            && line[..6] == (if e.kind == Tree then [0x30] + TreeModeText else e.mode)
            && line[6] == SPACE
            && line[7..7 + k] == Utf8.Encode(KindName(e.kind))
            && line[7 + k] == SPACE
            && line[8 + k..8 + k + 40] == Utf8.Encode(e.hash)
            && |Utf8.Encode(e.hash)| == 40
            && IndexOf(line, TAB) == Some(tab)
            && line[tab + 1..] == e.name
  {
    KindNameBytes(e.kind);
    HexBytes(hash);
    PaddedMode(e.mode);
    var padded := PadLeft(e.mode, 6, '0' as int);
    var kind, hex := Utf8.Encode(KindName(e.kind)), Utf8.Encode(e.hash);
    LineLayout(padded, kind, hex, e.name);
    var line := Display(e);
    assert line == padded + [SPACE] + kind + [SPACE] + hex + [TAB] + e.name;
    var tab := 6 + 1 + |KindName(e.kind)| + 1 + 40;
    assert tab == 6 + 1 + |kind| + 1 + |hex|;
    assert line[..6] == padded;
    assert line[7..7 + |kind|] == kind;
    assert line[8 + |kind|..tab] == hex;
    assert IndexOf(line, TAB) == Some(tab);
    assert line[tab + 1..] == e.name;
  }

  // ---------------------------------------------------------------------------------------------
  // Sequence lemmas: proof aids about concatenation and slicing, with no content of their own
  // ---------------------------------------------------------------------------------------------

  /** A sequence is its first n elements followed by the rest. */
  lemma TakeDrop<T>(s: seq<T>, n: nat)
    requires n <= |s|
    ensures s[..n] + s[n..] == s
  {
  }
}
