/**
 The text of a directory manifest (`save_manifest`, `load_manifest`): checksum type, number of
 paths, and one record for each path with the checksum of a file.
 */
module Manifest {
  import opened Bytes
  import opened Decimal
  import opened HexText

  const VERSION_LINE: seq<char> := "HDiff_Manifest_Version:1.0\n"
  const TYPE_TAG: seq<char> := "Checksum_Type:"
  const COUNT_TAG: seq<char> := "Path_Count:"
  const PATH_TAG: seq<char> := "Path:"
  /** `kPatch_dirSeparator_saved`. */
  const SAVED_SEPARATOR: char := '/'

  // --- separators ----------------------------------------------------------------------------------

  function Replace(s: seq<char>, from: char, to: char): (r: seq<char>)
    ensures |r| == |s| && forall i :: 0 <= i < |s| ==> r[i] == if s[i] == from then to else s[i]
  {
    seq(|s|, i requires 0 <= i < |s| => if s[i] == from then to else s[i])
  }

  function ToSaved(path: seq<char>, sep: char): seq<char> {
    Replace(path, sep, SAVED_SEPARATOR)
  }

  function FromSaved(path: seq<char>, sep: char): seq<char> {
    Replace(path, SAVED_SEPARATOR, sep)
  }

  /** Mapping separators there and back is the identity exactly for paths that do not hold the saved
      separator as an ordinary character. */
  lemma SeparatorRoundTrip(path: seq<char>, sep: char)
    ensures FromSaved(ToSaved(path, sep), sep) == path <==> sep == SAVED_SEPARATOR || SAVED_SEPARATOR !in path
  {
    var r := FromSaved(ToSaved(path, sep), sep);
    if sep != SAVED_SEPARATOR && SAVED_SEPARATOR in path {
      var i :| 0 <= i < |path| && path[i] == SAVED_SEPARATOR;
      assert r[i] == sep != path[i];
    }
  }

  predicate IsDirName(path: seq<char>, sep: char) {
    path != [] && path[|path| - 1] == sep
  }

  // --- writing ---------------------------------------------------------------------------------------

  /** What is saved: the root, what follows it in each path (the root itself first), and for a
      checksum the type and the checksum of every file. */
  datatype Listing = Listing(root: seq<char>, subs: seq<seq<char>>, sep: char, hasSums: bool, sumType: seq<char>,
                             sums: seq<seq<byte>>)
  {
    function Path(i: nat): seq<char>
      requires i < |subs|
    {
      root + subs[i]
    }

    predicate HasSum(i: nat)
      requires i < |subs|
    {
      hasSums && !IsDirName(Path(i), sep)
    }
  }

  /** The record of path `i` behind its tag. */
  function Record(m: Listing, i: nat): seq<char>
    requires i < |m.subs| == |m.sums|
  {
    (if m.HasSum(i) then Hex(m.sums[i]) + ":" else "") + ToSaved(m.subs[i], m.sep)
  }

  function Records(m: Listing, i: nat): seq<char>
    requires i <= |m.subs| == |m.sums|
    decreases |m.subs| - i
  {
    if i == |m.subs| then "" else PATH_TAG + (Record(m, i) + ("\n" + Records(m, i + 1)))
  }

  function Save(m: Listing): seq<char>
    requires |m.subs| == |m.sums|
  {
    VERSION_LINE + (TYPE_TAG + ((if m.hasSums then m.sumType else "")
    + ("\n" + (COUNT_TAG + (Digits(|m.subs|) + ("\n" + ("\n" + Records(m, 0))))))))
  }

  // --- reading ---------------------------------------------------------------------------------------

  /** The text behind the first occurrence of a tag. */
  function FindTag(s: seq<char>, tag: seq<char>): (r: Option<seq<char>>)
    ensures r.Some? ==> |r.value| + |tag| <= |s|
  {
    if tag <= s then Some(s[|tag|..]) else if s == [] then None else FindTag(s[1..], tag)
  }

  /** The rest of a line, and the text from its end on. */
  function TakeLine(s: seq<char>): (r: (seq<char>, seq<char>))
    ensures |r.1| <= |s|
  {
    if s == [] || s[0] == '\n' then ([], s)
    else
      var (line, rest) := TakeLine(s[1..]);
      ([s[0]] + line, rest)
  }

  function StripCr(line: seq<char>): seq<char> {
    if line != [] && line[|line| - 1] == '\r' then line[..|line| - 1] else line
  }

  /** `TManifestSaved`. */
  datatype Saved = Saved(root: seq<char>, paths: seq<seq<char>>, sumType: seq<char>, sumSize: nat, sums: seq<byte>)

  /** What is known in front of the records. */
  datatype Setting = Setting(count: nat, isHaveSum: bool, rootIsFile: bool, sep: char)

  function IndexOf(s: seq<char>, c: char): (i: nat)
    ensures i <= |s| && (i < |s| ==> s[i] == c) && c !in s[..i]
  {
    if s == [] || s[0] == c then 0 else 1 + IndexOf(s[1..], c)
  }

  /** The checksum digits and the path in a record. */
  function ParseRecord(line: seq<char>, isFirst: bool, t: Setting): Option<(seq<char>, seq<char>)> {
    if isFirst then
      if t.isHaveSum && t.rootIsFile then
        if |line| >= 2 && line[|line| - 1] == ':' then Some((line[..|line| - 1], [])) else None
      else if line == [] then Some(([], [])) else None
    else if t.isHaveSum && !IsDirName(line, SAVED_SEPARATOR) then
      var k := IndexOf(line, ':');
      if 0 < k < |line| - 1 then Some((line[..k], line[k + 1..])) else None
    else if line != [] then Some(([], line)) else None
  }

  function Zeros(n: nat): (s: seq<byte>)
    ensures |s| == n
  {
    seq(n, _ => 0)
  }

  /** Writes a checksum at its place; the first one decides the size of all. */
  function AddSum(r: Saved, index: nat, hex: seq<char>, count: nat): Option<Saved>
    requires index < count
  {
    if hex == [] then Some(r)
    else
      var size := if r.sumSize == 0 then |hex| / 2 else r.sumSize;
      var sums := if r.sumSize == 0 then Zeros(count * size) else r.sums;
      if size * 2 != |hex| || |sums| < index * size + size then None
      else
        var data :- Unhex(hex);
        Some(r.(sumSize := size, sums := sums[..index * size] + data + sums[index * size + size..]))
  }

  function LoadPaths(cur: seq<char>, r: Saved, t: Setting): Option<Saved>
    decreases |cur|
  {
    match FindTag(cur, "\n" + PATH_TAG)
    case None => if r.paths != [] && |r.paths| == t.count then Some(r) else None
    case Some(found) =>
      var (line, rest) := TakeLine(found);
      var (hex, sub) :- ParseRecord(StripCr(line), r.paths == [], t);
      if |r.paths| >= t.count then None
      else
        var r1 :- AddSum(r.(paths := r.paths + [r.root + FromSaved(sub, t.sep)]), |r.paths|, hex, t.count);
        LoadPaths(rest, r1, t)
  }

  /** The root as it is stored: a directory ends with a separator. */
  function RootPath(root: seq<char>, rootIsFile: bool, sep: char): seq<char> {
    if rootIsFile || IsDirName(root, sep) then root else root + [sep]
  }

  function LoadCount(cur: seq<char>, sumType: seq<char>, root: seq<char>, rootIsFile: bool, sep: char): Option<Saved> {
    var found :- FindTag(cur, "\n" + COUNT_TAG);
    var (line, rest) := TakeLine(found);
    var count :- Parse(StripCr(line));
    LoadPaths(rest, Saved(RootPath(root, rootIsFile, sep), [], sumType, 0, []),
              Setting(count, sumType != [], rootIsFile, sep))
  }

  function Load(text: seq<char>, root: seq<char>, rootIsFile: bool, sep: char): Option<Saved> {
    match FindTag(text, "\n" + TYPE_TAG)
    case None => LoadCount(text, [], root, rootIsFile, sep)
    case Some(found) =>
      var (line, rest) := TakeLine(found);
      LoadCount(rest, StripCr(line), root, rootIsFile, sep)
  }

  // --- what can be saved ------------------------------------------------------------------------------

  predicate PlainLine(s: seq<char>) {
    '\n' !in s && (s != [] ==> s[|s| - 1] != '\r')
  }

  /** Paths under one root, the root first; file checksums of one size; a checksum type that is not
      empty. */
  predicate Savable(m: Listing, size: nat) {
    && 0 < |m.subs| == |m.sums| < TWO_64 && size > 0
    && m.subs[0] == [] && (forall i :: 0 < i < |m.subs| ==> m.subs[i] != [])
    && (forall i :: 0 <= i < |m.subs| ==> PlainLine(m.subs[i]))
    && (m.sep == SAVED_SEPARATOR || forall i :: 0 <= i < |m.subs| ==> SAVED_SEPARATOR !in m.subs[i])
    && m.sep != '\n' && m.sep != '\r'
    && (m.hasSums ==> m.sumType != [] && PlainLine(m.sumType))
    && (forall i :: 0 <= i < |m.subs| ==> |m.sums[i]| == size)
  }

  /** The checksums from path `k` on when `i` records are read: of each file among them its own, for
      all others zeros. */
  function SumBytes(m: Listing, k: nat, i: nat, size: nat): seq<byte>
    requires k <= |m.subs| == |m.sums|
    decreases |m.subs| - k
  {
    if k == |m.subs| then []
    else (if k < i && m.HasSum(k) then m.sums[k] else Zeros(size)) + SumBytes(m, k + 1, i, size)
  }

  predicate SomeSum(m: Listing, i: nat)
    requires i <= |m.subs|
  {
    exists j: nat :: j < i && m.HasSum(j)
  }

  function Paths(m: Listing, i: nat): seq<seq<char>>
    requires i <= |m.subs|
  {
    if i == 0 then [] else Paths(m, i - 1) + [m.Path(i - 1)]
  }

  /** The loaded manifest behind `i` records; no checksums as long as there was no file. */
  function After(m: Listing, i: nat, size: nat): Saved
    requires i <= |m.subs| == |m.sums|
  {
    Saved(m.root, Paths(m, i), if m.hasSums then m.sumType else [],
          if SomeSum(m, i) then size else 0, if SomeSum(m, i) then SumBytes(m, 0, i, size) else [])
  }

  // --- searching and cutting ----------------------------------------------------------------------------

  lemma {:induction false} FindHere(tag: seq<char>, rest: seq<char>)
    ensures FindTag(tag + rest, tag) == Some(rest)
  {
    assert tag <= tag + rest;
  }

  /** A tag that begins with a line end is not found inside a line. */
  lemma {:induction false} FindBehind(line: seq<char>, s: seq<char>, tag: seq<char>)
    requires '\n' !in line && tag != [] && tag[0] == '\n'
    ensures FindTag(line + s, tag) == FindTag(s, tag)
  {
    if line == [] {
      assert line + s == s;
    } else {
      assert (line + s)[0] == line[0] && (line + s)[1..] == line[1..] + s;
      FindBehind(line[1..], s, tag);
    }
  }

  lemma {:induction false} TakeLineOf(line: seq<char>, rest: seq<char>)
    requires '\n' !in line && rest != [] && rest[0] == '\n'
    ensures TakeLine(line + rest) == (line, rest)
  {
    if line == [] {
      assert line + rest == rest;
    } else {
      assert (line + rest)[0] == line[0] && (line + rest)[1..] == line[1..] + rest;
      TakeLineOf(line[1..], rest);
      assert [line[0]] + line[1..] == line;
    }
  }

  /** A tag at the cut, a plain line behind it. */
  lemma {:induction false} TagAndLine(tag: seq<char>, line: seq<char>, rest: seq<char>)
    requires PlainLine(line) && rest != [] && rest[0] == '\n'
    ensures FindTag(tag + (line + rest), tag) == Some(line + rest)
    ensures TakeLine(line + rest) == (line, rest) && StripCr(line) == line
  {
    FindHere(tag, line + rest);
    TakeLineOf(line, rest);
  }

  lemma {:induction false} DigitsPlain(v: nat)
    ensures forall i :: 0 <= i < |Digits(v)| ==> '0' <= Digits(v)[i] <= '9'
  {
    if v >= 10 {
      DigitsPlain(v / 10);
    }
  }

  // --- one record ----------------------------------------------------------------------------------------

  lemma {:induction false} IndexBehind(a: seq<char>, c: char, b: seq<char>)
    requires c !in a
    ensures IndexOf(a + ([c] + b), c) == |a|
  {
    var s := a + ([c] + b);
    if a == [] {
      assert s[0] == c;
    } else {
      assert s[0] == a[0] && s[1..] == a[1..] + ([c] + b);
      IndexBehind(a[1..], c, b);
    }
  }

  lemma HexIsPlain(bytes: seq<byte>)
    ensures '\n' !in Hex(bytes) && ':' !in Hex(bytes)
  {
    HexChars(bytes);
  }

  lemma SavedIsPlain(sub: seq<char>, sep: char)
    requires PlainLine(sub) && sep != '\n' && sep != '\r'
    ensures PlainLine(ToSaved(sub, sep))
  {
  }

  /** A path that is not empty is a directory name exactly when its saved form is. */
  lemma SavedDirName(root: seq<char>, sub: seq<char>, sep: char)
    requires sub != [] && (sep == SAVED_SEPARATOR || SAVED_SEPARATOR !in sub)
    ensures IsDirName(ToSaved(sub, sep), SAVED_SEPARATOR) <==> IsDirName(root + sub, sep)
  {
    assert sub[|sub| - 1] in sub;
  }

  lemma RecordIsPlain(m: Listing, i: nat, size: nat)
    requires Savable(m, size) && i < |m.subs|
    ensures PlainLine(Record(m, i))
  {
    hide Hex, ToSaved;
    HexIsPlain(m.sums[i]);
    SavedIsPlain(m.subs[i], m.sep);
    JoinPlain(Hex(m.sums[i]), ToSaved(m.subs[i], m.sep));
    assert [] + ToSaved(m.subs[i], m.sep) == ToSaved(m.subs[i], m.sep);
  }

  lemma JoinPlain(a: seq<char>, b: seq<char>)
    requires '\n' !in a && PlainLine(b)
    ensures PlainLine(a + ":" + b)
  {
    var s := a + ":" + b;
    if b != [] {
      assert s[|s| - 1] == b[|b| - 1];
    }
  }

  function SettingOf(m: Listing): Setting {
    Setting(|m.subs|, m.hasSums, !IsDirName(m.root, m.sep), m.sep)
  }

  function SumHex(m: Listing, i: nat): seq<char>
    requires i < |m.subs| == |m.sums|
  {
    if m.HasSum(i) then Hex(m.sums[i]) else []
  }

  lemma {:induction false} ReadFirst(m: Listing, size: nat)
    requires Savable(m, size)
    ensures ParseRecord(Record(m, 0), true, SettingOf(m)) == Some((SumHex(m, 0), ToSaved(m.subs[0], m.sep)))
  {
    hide Hex;
    var hex, sub := Hex(m.sums[0]), ToSaved(m.subs[0], m.sep);
    assert |hex| == 2 * size;
    assert m.root + m.subs[0] == m.root && sub == [];
    assert m.HasSum(0) ==> Record(m, 0) == hex + ":" && (hex + ":")[..|hex|] == hex;
  }

  lemma {:induction false} ParseWithSum(hex: seq<char>, sub: seq<char>, size: nat, t: Setting)
    requires ':' !in hex && |hex| == 2 * size && size > 0 && sub != []
    requires t.isHaveSum && !IsDirName(sub, SAVED_SEPARATOR)
    ensures ParseRecord(hex + ":" + sub, false, t) == Some((hex, sub))
  {
    hide IndexOf, IsDirName;
    WithSum(hex, sub, size);
    Regroup(hex, ":", sub);
    SameEnd(hex + (":" + sub), sub);
  }

  lemma SameEnd(line: seq<char>, sub: seq<char>)
    requires line != [] && sub != [] && line[|line| - 1] == sub[|sub| - 1]
    ensures IsDirName(line, SAVED_SEPARATOR) == IsDirName(sub, SAVED_SEPARATOR)
  {
  }

  lemma {:induction false} ParseWithout(sub: seq<char>, t: Setting)
    requires sub != [] && (!t.isHaveSum || IsDirName(sub, SAVED_SEPARATOR))
    ensures ParseRecord("" + sub, false, t) == Some(([], sub))
  {
    assert "" + sub == sub;
  }

  lemma PathFacts(m: Listing, i: nat, size: nat)
    requires Savable(m, size) && 0 < i < |m.subs|
    ensures |m.sums| == |m.subs| && m.subs[i] != [] && |m.sums[i]| == size && size > 0
    ensures m.sep == SAVED_SEPARATOR || SAVED_SEPARATOR !in m.subs[i]
  {
  }

  lemma {:induction false} ReadLater(m: Listing, i: nat, size: nat)
    requires Savable(m, size) && 0 < i < |m.subs|
    ensures ParseRecord(Record(m, i), false, SettingOf(m)) == Some((SumHex(m, i), ToSaved(m.subs[i], m.sep)))
  {
    hide Hex, ParseRecord, IsDirName, Savable;
    PathFacts(m, i, size);
    HexIsPlain(m.sums[i]);
    SavedDirName(m.root, m.subs[i], m.sep);
    if m.HasSum(i) {
      ParseWithSum(Hex(m.sums[i]), ToSaved(m.subs[i], m.sep), size, SettingOf(m));
    } else {
      ParseWithout(ToSaved(m.subs[i], m.sep), SettingOf(m));
    }
  }

  /** A record is read back as its checksum digits and its saved path. */
  lemma {:induction false} ReadRecord(m: Listing, i: nat, size: nat)
    requires Savable(m, size) && i < |m.subs|
    ensures ParseRecord(Record(m, i), i == 0, SettingOf(m)) == Some((SumHex(m, i), ToSaved(m.subs[i], m.sep)))
  {
    hide ParseRecord, Record, SumHex;
    if i == 0 {
      ReadFirst(m, size);
    } else {
      ReadLater(m, i, size);
    }
  }

  lemma {:induction false} WithSum(hex: seq<char>, sub: seq<char>, size: nat)
    requires ':' !in hex && |hex| == 2 * size && size > 0 && sub != []
    ensures var line := hex + (":" + sub);
      && line[|line| - 1] == sub[|sub| - 1] && IndexOf(line, ':') == |hex|
      && line[..|hex|] == hex && line[|hex| + 1..] == sub && |hex| < |line| - 1
  {
    IndexBehind(hex, ':', sub);
  }

  // --- the checksums ----------------------------------------------------------------------------------

  lemma MulStep(k: nat, size: nat)
    ensures (k + 1) * size == k * size + size
  {
  }

  lemma MulRoom(i: nat, n: nat, size: nat)
    requires i < n
    ensures i * size + size <= n * size
  {
    MulStep(i, size);
    assert (i + 1) * size <= n * size;
  }

  lemma {:induction false} SumLength(m: Listing, k: nat, i: nat, size: nat)
    requires Savable(m, size) && k <= |m.subs|
    ensures |SumBytes(m, k, i, size)| == (|m.subs| - k) * size
    decreases |m.subs| - k
  {
    if k < |m.subs| {
      SumLength(m, k + 1, i, size);
      MulStep(|m.subs| - k - 1, size);
    }
  }

  lemma JoinZeros(a: nat, b: nat)
    ensures Zeros(a) + Zeros(b) == Zeros(a + b)
  {
  }

  lemma {:induction false} NoSums(m: Listing, k: nat, i: nat, size: nat)
    requires Savable(m, size) && k <= |m.subs| && i <= |m.subs| && !SomeSum(m, i)
    ensures SumBytes(m, k, i, size) == Zeros((|m.subs| - k) * size)
    decreases |m.subs| - k
  {
    if k < |m.subs| {
      NoSums(m, k + 1, i, size);
      MulStep(|m.subs| - k - 1, size);
      JoinZeros(size, (|m.subs| - k - 1) * size);
    }
  }

  lemma {:induction false} SameSums(m: Listing, k: nat, i: nat, size: nat)
    requires Savable(m, size) && k <= |m.subs| && i < |m.subs| && (k > i || !m.HasSum(i))
    ensures SumBytes(m, k, i + 1, size) == SumBytes(m, k, i, size)
    decreases |m.subs| - k
  {
    if k < |m.subs| {
      SameSums(m, k + 1, i, size);
    }
  }

  /** A splice in the tail is a splice of the whole. */
  lemma SpliceBehind(part: seq<byte>, a: seq<byte>, x: seq<byte>, at: nat, n: nat)
    requires |x| == n && |part| == n && at + n <= |a|
    ensures var s := part + a;
      part + (a[..at] + x + a[at + n..]) == s[..n + at] + x + s[n + at + n..]
  {
  }

  lemma SpliceFront(part: seq<byte>, a: seq<byte>, x: seq<byte>)
    requires |x| == |part|
    ensures var s := part + a;
      x + a == s[..0] + x + s[|part|..]
  {
  }

  lemma {:induction false} SumUnfold(m: Listing, k: nat, i: nat, size: nat)
    requires k < |m.subs| == |m.sums|
    ensures SumBytes(m, k, i, size)
         == (if k < i && m.HasSum(k) then m.sums[k] else Zeros(size)) + SumBytes(m, k + 1, i, size)
  {
  }

  lemma SizeAt(m: Listing, k: nat, size: nat)
    requires Savable(m, size) && k < |m.subs|
    ensures |m.sums| == |m.subs| && |m.sums[k]| == size
  {
  }

  /** A new checksum replaces its part of the list. */
  lemma {:induction false} SumSpliceHere(m: Listing, k: nat, size: nat)
    requires Savable(m, size) && k < |m.subs| && m.HasSum(k)
    ensures var s := SumBytes(m, k, k, size);
      size <= |s| && SumBytes(m, k, k + 1, size) == s[..0] + m.sums[k] + s[0 + size..]
  {
    hide SumBytes, Savable, Zeros, Listing.HasSum;
    SizeAt(m, k, size);
    SumUnfold(m, k, k, size);
    SumUnfold(m, k, k + 1, size);
    SameSums(m, k + 1, k, size);
    SpliceFront(Zeros(size), SumBytes(m, k + 1, k, size), m.sums[k]);
  }

  lemma {:induction false} SumSpliceStep(m: Listing, k: nat, i: nat, size: nat, at: nat)
    requires Savable(m, size) && k < i < |m.subs|
    requires var s := SumBytes(m, k + 1, i, size);
      at + size <= |s| && SumBytes(m, k + 1, i + 1, size) == s[..at] + m.sums[i] + s[at + size..]
    ensures var s := SumBytes(m, k, i, size);
      at + size + size <= |s| && SumBytes(m, k, i + 1, size) == s[..at + size] + m.sums[i] + s[at + size + size..]
  {
    hide SumBytes, Savable, Zeros, Listing.HasSum;
    SizeAt(m, k, size);
    SizeAt(m, i, size);
    SumUnfold(m, k, i, size);
    SumUnfold(m, k, i + 1, size);
    SpliceBehind(if m.HasSum(k) then m.sums[k] else Zeros(size), SumBytes(m, k + 1, i, size), m.sums[i], at, size);
  }

  /** Where the checksum of path `i` stands. */
  function PlaceOf(i: nat, size: nat): nat {
    i * size
  }

  lemma PlaceNext(i: nat, size: nat)
    ensures PlaceOf(i + 1, size) == PlaceOf(i, size) + size && PlaceOf(0, size) == 0
  {
  }

  lemma {:induction false} SumSplice(m: Listing, k: nat, i: nat, between: nat, size: nat, at: nat)
    requires Savable(m, size) && k + between == i < |m.subs| && m.HasSum(i) && at == PlaceOf(between, size)
    ensures var s := SumBytes(m, k, i, size);
      at + size <= |s| && SumBytes(m, k, i + 1, size) == s[..at] + m.sums[i] + s[at + size..]
    decreases |m.subs| - k
  {
    hide SumBytes, Savable, Zeros, PlaceOf, Listing.HasSum;
    if k == i {
      PlaceNext(0, size);
      SumSpliceHere(m, k, size);
    } else {
      PlaceNext(between - 1, size);
      SumSplice(m, k + 1, i, between - 1, size, at - size);
      SumSpliceStep(m, k, i, size, at - size);
    }
  }

  lemma {:induction false} NextSum(m: Listing, i: nat, size: nat)
    requires Savable(m, size) && i < |m.subs|
    ensures SomeSum(m, i + 1) <==> SomeSum(m, i) || m.HasSum(i)
  {
    if SomeSum(m, i) {
      var j: nat :| j < i && m.HasSum(j);
      assert j < i + 1;
    }
  }

  /** Reading a record's checksum makes the list that of one record more. */
  lemma {:induction false} AddSumStep(m: Listing, i: nat, size: nat)
    requires Savable(m, size) && i < |m.subs|
    ensures AddSum(After(m, i, size).(paths := Paths(m, i + 1)), i, SumHex(m, i), |m.subs|) == Some(After(m, i + 1, size))
  {
    hide Unhex, Hex, SumBytes, SomeSum, Paths;
    NextSum(m, i, size);
    if m.HasSum(i) {
      if !SomeSum(m, i) {
        NoSums(m, 0, i, size);
      }
      UnhexOfHex(m.sums[i]);
      SumSplice(m, 0, i, i, size, i * size);
    } else {
      SameSums(m, 0, i, size);
    }
  }

  // --- round trip -----------------------------------------------------------------------------------------

  /** From one record on: the rest of the file is read back. */
  lemma {:induction false} LoadRecords(m: Listing, i: nat, size: nat)
    requires Savable(m, size) && i <= |m.subs|
    ensures LoadPaths("\n" + Records(m, i), After(m, i, size), SettingOf(m)) == Some(After(m, |m.subs|, size))
    decreases |m.subs| - i
  {
    hide AddSum, ParseRecord, Record, SumBytes, SomeSum;
    var cur, tag := "\n" + Records(m, i), "\n" + PATH_TAG;
    PathCount(m, i);
    if i == |m.subs| {
      NoMoreRecords();
    } else {
      var line, rest := Record(m, i), "\n" + Records(m, i + 1);
      assert cur == tag + (line + rest);
      RecordIsPlain(m, i, size);
      TagAndLine(tag, line, rest);
      ReadRecord(m, i, size);
      SubReadBack(m, i, size);
      AddSumStep(m, i, size);
      LoadRecords(m, i + 1, size);
    }
  }

  lemma {:induction false} NoMoreRecords()
    ensures FindTag("\n" + "", "\n" + PATH_TAG) == None
  {
    assert !("\n" + PATH_TAG <= "\n");
    assert ("\n")[1..] == "";
  }

  lemma {:induction false} PathCount(m: Listing, i: nat)
    requires i <= |m.subs|
    ensures |Paths(m, i)| == i
  {
    if i > 0 {
      PathCount(m, i - 1);
    }
  }

  lemma {:induction false} SubReadBack(m: Listing, i: nat, size: nat)
    requires Savable(m, size) && i < |m.subs|
    ensures Paths(m, i) + [m.root + FromSaved(ToSaved(m.subs[i], m.sep), m.sep)] == Paths(m, i + 1)
  {
    SeparatorRoundTrip(m.subs[i], m.sep);
  }

  lemma RootIsKept(m: Listing)
    ensures RootPath(m.root, !IsDirName(m.root, m.sep), m.sep) == m.root
  {
  }

  lemma DigitsLine(n: nat)
    ensures PlainLine(Digits(n))
  {
    DigitsPlain(n);
  }

  /** From the count on. */
  lemma {:induction false} LoadFromCount(m: Listing, size: nat)
    requires Savable(m, size)
    ensures LoadCount("\n" + (COUNT_TAG + (Digits(|m.subs|) + ("\n" + ("\n" + Records(m, 0))))),
                      if m.hasSums then m.sumType else [], m.root, !IsDirName(m.root, m.sep), m.sep)
         == Some(After(m, |m.subs|, size))
  {
    hide LoadPaths, Digits, Records, Parse;
    var n, records := |m.subs|, "\n" + Records(m, 0);
    var tag, rest := "\n" + COUNT_TAG, "\n" + records;
    assert "\n" + (COUNT_TAG + (Digits(n) + rest)) == tag + (Digits(n) + rest);
    DigitsLine(n);
    TagAndLine(tag, Digits(n), rest);
    ParseExactly(Digits(n), n);
    RootIsKept(m);
    LoadRecords(m, 0, size);
    EmptyLineFirst(records, After(m, 0, size), SettingOf(m));
    NothingYet(m, size);
  }

  lemma {:induction false} NothingYet(m: Listing, size: nat)
    requires |m.subs| == |m.sums|
    ensures After(m, 0, size) == Saved(m.root, [], if m.hasSums then m.sumType else [], 0, [])
  {
  }

  /** The empty line in front of the records is skipped by the search. */
  lemma {:induction false} EmptyLineFirst(records: seq<char>, r: Saved, t: Setting)
    requires records != [] && records[0] == '\n'
    ensures LoadPaths("\n" + records, r, t) == LoadPaths(records, r, t)
  {
    hide ParseRecord, AddSum;
    var tag, s := "\n" + PATH_TAG, "\n" + records;
    assert tag[1] == 'P' && s[1] == '\n';
    assert !(tag <= s);
    assert s[1..] == records;
  }

  /** Loading the saved text gives the same checksum type, the same paths in order, and the checksum
      of every file at its place. */
  lemma {:induction false} LoadOfSave(m: Listing, size: nat)
    requires Savable(m, size)
    ensures Load(Save(m), m.root, !IsDirName(m.root, m.sep), m.sep) == Some(After(m, |m.subs|, size))
  {
    hide LoadCount, Digits, Records, After;
    var sumType := if m.hasSums then m.sumType else [];
    var behind := "\n" + (COUNT_TAG + (Digits(|m.subs|) + ("\n" + ("\n" + Records(m, 0)))));
    var version, tag := VERSION_LINE[..|VERSION_LINE| - 1], "\n" + TYPE_TAG;
    assert Save(m) == version + (tag + (sumType + behind));
    VersionHasNoLineEnd();
    FindBehind(version, tag + (sumType + behind), tag);
    TagAndLine(tag, sumType, behind);
    LoadFromCount(m, size);
  }

  lemma VersionHasNoLineEnd()
    ensures '\n' !in VERSION_LINE[..|VERSION_LINE| - 1] && VERSION_LINE == VERSION_LINE[..|VERSION_LINE| - 1] + "\n"
  {
  }

  // --- the loops --------------------------------------------------------------------------------------------

  /** The record of a path. */
  method SaveRecord(m: Listing, i: nat) returns (text: seq<char>)
    requires i < |m.subs| == |m.sums|
    ensures text == PATH_TAG + (Record(m, i) + "\n")
  {
    hide Hex;
    text := PATH_TAG;
    var path := ToSaved(m.subs[i], m.sep);
    if m.hasSums && !IsDirName(m.Path(i), m.sep) {
      var hexs := ChecksumHex(m.sums[i]);
      text := text + hexs[..] + ":" + path + "\n";
      assert text == PATH_TAG + ((Hex(m.sums[i]) + ":" + path) + "\n");
    } else {
      text := text + path + "\n";
      assert [] + path == path;
      assert text == PATH_TAG + (path + "\n");
    }
  }

  lemma JoinRecord(done: seq<char>, tag: seq<char>, line: seq<char>, rest: seq<char>)
    ensures done + (tag + (line + ("\n" + rest))) == (done + (tag + (line + "\n"))) + rest
  {
  }

  /** `save_manifest`, the text. */
  method SaveManifest(m: Listing) returns (text: seq<char>)
    requires |m.subs| == |m.sums| < TWO_64
    ensures text == Save(m)
  {
    hide Record, Digits;
    var buf := new char[21](_ => ' ');
    var begin := U64ToEnoughA(|m.subs|, buf);
    text := VERSION_LINE + TYPE_TAG;
    if m.hasSums {
      text := text + m.sumType;
    }
    text := text + "\n" + COUNT_TAG + buf[begin..20] + "\n" + "\n";
    ghost var all := Save(m);
    SaveHead(m, text);
    var i := 0;
    while i < |m.subs|
      invariant 0 <= i <= |m.subs|
      invariant text + Records(m, i) == all
    {
      var record := SaveRecord(m, i);
      JoinRecord(text, PATH_TAG, Record(m, i), Records(m, i + 1));
      text := text + record;
      i := i + 1;
    }
    assert text + "" == text;
  }

  lemma SaveHead(m: Listing, text: seq<char>)
    requires |m.subs| == |m.sums|
    requires text == VERSION_LINE + TYPE_TAG + (if m.hasSums then m.sumType else []) + "\n" + COUNT_TAG
                     + Digits(|m.subs|) + "\n" + "\n"
    ensures text + Records(m, 0) == Save(m)
  {
    hide Records, Digits;
  }

  /** `std::search` for a tag from `cur` on; `pos` is behind it. */
  method SearchTag(text: seq<char>, cur: nat, tag: seq<char>) returns (found: bool, pos: nat)
    requires cur <= |text| && tag != []
    ensures found == FindTag(text[cur..], tag).Some?
    ensures found ==> cur + |tag| <= pos <= |text| && FindTag(text[cur..], tag) == Some(text[pos..])
  {
    pos := cur;
    while pos < |text|
      invariant cur <= pos <= |text|
      invariant FindTag(text[pos..], tag) == FindTag(text[cur..], tag)
    {
      if tag <= text[pos..] {
        assert text[pos..][|tag|..] == text[pos + |tag|..];
        return true, pos + |tag|;
      }
      assert text[pos..][1..] == text[pos + 1..];
      pos := pos + 1;
    }
    found := false;
  }

  /** `std::find` for the line end. */
  method LineEnd(text: seq<char>, pos: nat) returns (posEnd: nat)
    requires pos <= |text|
    ensures pos <= posEnd <= |text|
    ensures TakeLine(text[pos..]) == (text[pos..posEnd], text[posEnd..])
  {
    hide TakeLine;
    posEnd := pos;
    ghost var all := TakeLine(text[pos..]);
    assert text[pos..pos] + all.0 == all.0;
    while posEnd < |text| && text[posEnd] != '\n'
      invariant pos <= posEnd <= |text|
      invariant text[pos..posEnd] + TakeLine(text[posEnd..]).0 == all.0 && TakeLine(text[posEnd..]).1 == all.1
    {
      LineStep(text, pos, posEnd);
      posEnd := posEnd + 1;
    }
    LineStops(text, posEnd);
    assert text[pos..posEnd] + [] == text[pos..posEnd];
  }

  lemma {:induction false} LineStep(text: seq<char>, pos: nat, posEnd: nat)
    requires pos <= posEnd < |text| && text[posEnd] != '\n'
    ensures text[pos..posEnd] + TakeLine(text[posEnd..]).0 == text[pos..posEnd + 1] + TakeLine(text[posEnd + 1..]).0
    ensures TakeLine(text[posEnd..]).1 == TakeLine(text[posEnd + 1..]).1
  {
    assert text[posEnd..][0] == text[posEnd] && text[posEnd..][1..] == text[posEnd + 1..];
    assert text[pos..posEnd + 1] == text[pos..posEnd] + [text[posEnd]];
  }

  lemma {:induction false} LineStops(text: seq<char>, posEnd: nat)
    requires posEnd <= |text| && (posEnd < |text| ==> text[posEnd] == '\n')
    ensures TakeLine(text[posEnd..]) == ([], text[posEnd..])
  {
  }

  lemma NoDigits(r: Saved, index: nat, count: nat)
    requires index < count
    ensures AddSum(r, index, [], count) == Some(r)
  {
  }

  lemma WrongSize(r: Saved, index: nat, hex: seq<char>, count: nat)
    requires index < count && hex != [] && (if r.sumSize == 0 then |hex| / 2 else r.sumSize) * 2 != |hex|
    ensures AddSum(r, index, hex, count) == None
  {
    hide Unhex, Zeros;
  }

  /** Of the right size, it is added exactly when all its characters are digits; `r0` has the room. */
  lemma SumAdded(r: Saved, index: nat, hex: seq<char>, count: nat, r0: Saved)
    requires index < count && hex != [] && r0.sumSize * 2 == |hex| && index * r0.sumSize + r0.sumSize <= |r0.sums|
    requires r0 == if r.sumSize == 0 then r.(sumSize := |hex| / 2, sums := Zeros(count * (|hex| / 2))) else r
    ensures var at := index * r0.sumSize;
      AddSum(r, index, hex, count)
      == match Unhex(hex)
         case None => None
         case Some(data) => Some(r0.(sums := r0.sums[..at] + data + r0.sums[at + r0.sumSize..]))
  {
    hide Unhex, Zeros;
  }

  /** `_hex2data` into the list of checksums. */
  method StoreSum(r: Saved, index: nat, hex: seq<char>, count: nat) returns (ok: bool, r1: Saved)
    requires index < count && (r.sumSize > 0 ==> |r.sums| == count * r.sumSize)
    ensures ok == AddSum(r, index, hex, count).Some?
    ensures ok ==> r1 == AddSum(r, index, hex, count).value
    ensures ok && r1.sumSize > 0 ==> |r1.sums| == count * r1.sumSize
  {
    hide Unhex, Zeros, AddSum;
    r1 := r;
    if hex == [] {
      NoDigits(r, index, count);
      return true, r1;
    }
    if r1.sumSize == 0 {
      r1 := r1.(sumSize := |hex| / 2, sums := Zeros(count * (|hex| / 2)));
    }
    ghost var r0 := r1;
    if r1.sumSize * 2 != |hex| {
      WrongSize(r, index, hex, count);
      return false, r1;
    }
    MulRoom(index, count, r1.sumSize);
    SumAdded(r, index, hex, count, r0);
    var data;
    ok, data := HexToData(hex);
    if ok {
      var at := index * r1.sumSize;
      r1 := r1.(sums := r1.sums[..at] + data[..] + r1.sums[at + r1.sumSize..]);
    }
  }

  /** The loop over the records. */
  method LoadManifestPaths(text: seq<char>, begin: nat, start: Saved, t: Setting) returns (ok: bool, r: Saved)
    requires begin <= |text| && start.sumSize == 0
    ensures ok == LoadPaths(text[begin..], start, t).Some?
    ensures ok ==> r == LoadPaths(text[begin..], start, t).value
  {
    hide AddSum, ParseRecord, TakeLine, FindTag, FromSaved;
    r := start;
    var cur := begin;
    while true
      invariant cur <= |text| && (r.sumSize > 0 ==> |r.sums| == t.count * r.sumSize)
      invariant LoadPaths(text[cur..], r, t) == LoadPaths(text[begin..], start, t)
      decreases |text| - cur
    {
      var found, pos := SearchTag(text, cur, "\n" + PATH_TAG);
      if !found {
        return r.paths != [] && |r.paths| == t.count, r;
      }
      var posEnd := LineEnd(text, pos);
      cur := posEnd;
      var line := StripCr(text[pos..posEnd]);
      var record := ParseRecord(line, r.paths == [], t);
      if record.None? || |r.paths| >= t.count {
        return false, r;
      }
      var index := |r.paths|;
      r := r.(paths := r.paths + [r.root + FromSaved(record.value.1, t.sep)]);
      ok, r := StoreSum(r, index, record.value.0, t.count);
      if !ok {
        return;
      }
    }
  }

  /** `load_manifest`. */
  method LoadManifest(text: seq<char>, rootPath: seq<char>, rootIsFile: bool, sep: char) returns (ok: bool, r: Saved)
    ensures ok == Load(text, rootPath, rootIsFile, sep).Some?
    ensures ok ==> r == Load(text, rootPath, rootIsFile, sep).value
  {
    hide TakeLine, FindTag, LoadPaths, Parse;
    var root := RootPath(rootPath, rootIsFile, sep);
    r := Saved(root, [], [], 0, []);
    var cur, sumType := 0, [];
    assert text[0..] == text;
    var found, pos := SearchTag(text, cur, "\n" + TYPE_TAG);
    if found {
      cur := LineEnd(text, pos);
      sumType := StripCr(text[pos..cur]);
    }
    found, pos := SearchTag(text, cur, "\n" + COUNT_TAG);
    if !found {
      return false, r;
    }
    var posEnd := LineEnd(text, pos);
    var pathCount;
    ok, pathCount := AToU64(StripCr(text[pos..posEnd]));
    if !ok {
      return;
    }
    r := r.(sumType := sumType);
    ok, r := LoadManifestPaths(text, posEnd, r, Setting(pathCount, sumType != [], rootIsFile, sep));
  }
}
