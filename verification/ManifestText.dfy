/**
 A saved manifest as text: its first lines, and the line of every path, character by character; and what
 a loaded manifest holds, path by path and checksum by checksum.
 */
module ManifestText {
  import opened Bytes
  import opened Decimal
  import opened HexText
  import opened Manifest

  // --- one line ---------------------------------------------------------------------------------------

  /** Two characters for each byte, the digit of the low half first, in lower case. */
  predicate IsHexLine(s: seq<char>, bytes: seq<byte>) {
    && |s| == 2 * |bytes|
    && forall i :: 0 <= i < |bytes| ==>
         s[2 * i] == "0123456789abcdef"[bytes[i] % 16] && s[2 * i + 1] == "0123456789abcdef"[bytes[i] / 16]
  }

  /** The path with '/' for every separator of the system. */
  predicate IsSavedPath(s: seq<char>, sub: seq<char>, sep: char) {
    |s| == |sub| && forall i :: 0 <= i < |sub| ==> s[i] == if sub[i] == sep then '/' else sub[i]
  }

  /** A path names a directory when it ends with the separator. */
  predicate NamesFile(path: seq<char>, sep: char) {
    path == [] || path[|path| - 1] != sep
  }

  /** The line of path `i`: a checksum only for a file, and a ':' behind it. */
  ghost predicate IsPathLine(line: seq<char>, m: Listing, i: nat)
    requires i < |m.subs| == |m.sums|
  {
    if m.hasSums && NamesFile(m.root + m.subs[i], m.sep) then
      var n := 2 * |m.sums[i]|;
      && |line| >= 5 + n + 1 + 1 && line[..5] == "Path:" && IsHexLine(line[5..5 + n], m.sums[i]) && line[5 + n] == ':'
      && IsSavedPath(line[5 + n + 1..|line| - 1], m.subs[i], m.sep) && line[|line| - 1] == '\n'
    else
      && |line| >= 6 && line[..5] == "Path:"
      && IsSavedPath(line[5..|line| - 1], m.subs[i], m.sep) && line[|line| - 1] == '\n'
  }

  lemma HexIsHexLine(bytes: seq<byte>)
    ensures IsHexLine(Hex(bytes), bytes)
  {
    hide Hex;
    forall i | 0 <= i < |bytes|
      ensures Hex(bytes)[2 * i] == "0123456789abcdef"[bytes[i] % 16]
           && Hex(bytes)[2 * i + 1] == "0123456789abcdef"[bytes[i] / 16]
    {
      HexAt(bytes, i);
    }
  }

  lemma FileIsFile(m: Listing, i: nat)
    requires i < |m.subs|
    ensures m.HasSum(i) <==> m.hasSums && NamesFile(m.root + m.subs[i], m.sep)
  {
  }

  /** The line cut into its parts. */
  lemma WithSumParts(hex: seq<char>, path: seq<char>)
    ensures var line := "Path:" + ((hex + ":" + path) + "\n");
      && |line| == 5 + |hex| + 1 + |path| + 1 && line[..5] == "Path:" && line[5..5 + |hex|] == hex && line[5 + |hex|] == ':'
      && line[5 + |hex| + 1..|line| - 1] == path && line[|line| - 1] == '\n'
  {
  }

  lemma WithoutParts(path: seq<char>)
    ensures var line := "Path:" + (("" + path) + "\n");
      |line| == 5 + |path| + 1 && line[..5] == "Path:" && line[5..|line| - 1] == path && line[|line| - 1] == '\n'
  {
    assert "" + path == path;
  }

  lemma RecordIsPathLine(m: Listing, i: nat)
    requires i < |m.subs| == |m.sums|
    ensures IsPathLine(PATH_TAG + (Record(m, i) + "\n"), m, i)
  {
    hide Hex, IsHexLine, Listing.HasSum, NamesFile;
    FileIsFile(m, i);
    HexIsHexLine(m.sums[i]);
    var path := ToSaved(m.subs[i], m.sep);
    WithSumParts(Hex(m.sums[i]), path);
    WithoutParts(path);
  }

  // --- the whole text ------------------------------------------------------------------------------------

  /** One line for each path from `i` on. */
  ghost predicate ArePathLines(lines: seq<seq<char>>, m: Listing, i: nat)
    requires |m.subs| == |m.sums|
  {
    i + |lines| == |m.subs| && forall k :: 0 <= k < |lines| ==> IsPathLine(lines[k], m, i + k)
  }

  lemma {:induction false} RecordLines(m: Listing, i: nat) returns (lines: seq<seq<char>>)
    requires i <= |m.subs| == |m.sums|
    ensures ArePathLines(lines, m, i) && Records(m, i) == Joined(lines)
    decreases |m.subs| - i
  {
    hide Record, IsPathLine;
    if i == |m.subs| {
      lines := [];
    } else {
      var rest := RecordLines(m, i + 1);
      RecordIsPathLine(m, i);
      var first := PATH_TAG + (Record(m, i) + "\n");
      lines := [first] + rest;
      assert lines[1..] == rest;
      assert forall k :: 0 < k < |lines| ==> lines[k] == rest[k - 1];
      LineJoin(PATH_TAG, Record(m, i), Joined(rest));
    }
  }

  lemma LineJoin(tag: seq<char>, line: seq<char>, rest: seq<char>)
    ensures tag + (line + ("\n" + rest)) == (tag + (line + "\n")) + rest
  {
  }

  /** The saved text: version, checksum type, number of paths, an empty line, and a line for each path in
      their order. */
  lemma SavedText(m: Listing) returns (count: seq<char>, lines: seq<seq<char>>)
    requires |m.subs| == |m.sums|
    ensures IsDecimal(count, |m.subs|) && ArePathLines(lines, m, 0)
    ensures Save(m)
         == "HDiff_Manifest_Version:1.0\nChecksum_Type:" + (if m.hasSums then m.sumType else "")
            + "\nPath_Count:" + count + "\n\n" + Joined(lines)
  {
    hide Digits, IsDecimal, Records, ArePathLines;
    count := Digits(|m.subs|);
    DigitsAreDecimal(|m.subs|);
    lines := RecordLines(m, 0);
    SaveHead(m, VERSION_LINE + TYPE_TAG + (if m.hasSums then m.sumType else []) + "\n" + COUNT_TAG + count + "\n" + "\n");
    FirstLines(if m.hasSums then m.sumType else "", count);
  }

  lemma FirstLines(sumType: seq<char>, count: seq<char>)
    ensures VERSION_LINE + TYPE_TAG + sumType + "\n" + COUNT_TAG + count + "\n" + "\n"
         == "HDiff_Manifest_Version:1.0\nChecksum_Type:" + sumType + "\nPath_Count:" + count + "\n\n"
  {
    assert VERSION_LINE + TYPE_TAG == "HDiff_Manifest_Version:1.0\nChecksum_Type:";
    assert "\n" + COUNT_TAG == "\nPath_Count:";
    assert "\n" + "\n" == "\n\n";
  }

  // --- what is loaded ------------------------------------------------------------------------------------

  lemma {:induction false} PathAt(m: Listing, n: nat, i: nat)
    requires i < n <= |m.subs|
    ensures |Paths(m, n)| == n && Paths(m, n)[i] == m.root + m.subs[i]
  {
    PathCount(m, n);
    if i < n - 1 {
      PathAt(m, n - 1, i);
    } else {
      PathCount(m, n - 1);
    }
  }

  /** The checksum at place `i`, counted from `k` on. */
  lemma {:induction false} SumAt(m: Listing, k: nat, i: nat, size: nat, at: nat)
    requires Savable(m, size) && k <= i < |m.subs| && at == (i - k) * size
    ensures var s := SumBytes(m, k, |m.subs|, size);
      at + size <= |s| && s[at..at + size] == if m.HasSum(i) then m.sums[i] else Zeros(size)
    decreases |m.subs| - k
  {
    hide SumBytes, Savable, Zeros, Listing.HasSum;
    SizeAt(m, k, size);
    SumUnfold(m, k, |m.subs|, size);
    var rest := SumBytes(m, k + 1, |m.subs|, size);
    if i == k {
      assert at == 0;
    } else {
      MulStep(i - k - 1, size);
      SumAt(m, k + 1, i, size, at - size);
      SliceShift(if m.HasSum(k) then m.sums[k] else Zeros(size), rest, at - size, size);
    }
  }

  lemma SliceShift(a: seq<byte>, b: seq<byte>, at: nat, n: nat)
    requires at + n <= |b|
    ensures (a + b)[|a| + at..|a| + at + n] == b[at..at + n]
  {
  }

  /** What the loaded manifest holds for path `i`. */
  predicate Holds(r: Saved, m: Listing, i: nat, size: nat)
    requires i < |m.subs| == |m.sums|
  {
    && i < |r.paths| && r.paths[i] == m.root + m.subs[i]
    && (r.sumSize > 0 ==>
          && r.sumSize == size && i * size + size <= |r.sums|
          && r.sums[i * size..i * size + size]
             == if m.hasSums && NamesFile(m.root + m.subs[i], m.sep) then m.sums[i] else seq(size, _ => 0))
  }

  /** Loading the saved text gives every path again at its place, for every file its checksum and for every
      directory zeros; there are checksums if and only if there is a file to be checked. */
  lemma {:induction false} LoadedHolds(m: Listing, size: nat)
    requires Savable(m, size)
    ensures var r := Load(Save(m), m.root, NamesFile(m.root, m.sep), m.sep);
      && r.Some? && |r.value.paths| == |m.subs| && r.value.sumType == (if m.hasSums then m.sumType else [])
      && (forall i :: 0 <= i < |m.subs| ==> Holds(r.value, m, i, size))
      && (r.value.sumSize > 0 <==> m.hasSums && exists i :: 0 <= i < |m.subs| && NamesFile(m.root + m.subs[i], m.sep))
      && |r.value.sums| == |m.subs| * r.value.sumSize
  {
    hide Load, Save, SumBytes, Paths, NamesFile, Listing.HasSum, Zeros;
    RootIsFile(m);
    LoadOfSave(m, size);
    var n := |m.subs|;
    var r := After(m, n, size);
    PathCount(m, n);
    SumLength(m, 0, n, size);
    forall i | 0 <= i < n ensures Holds(r, m, i, size) {
      PathAt(m, n, i);
      SumAt(m, 0, i, size, i * size);
      FileIsFile(m, i);
      ZerosAre(size);
    }
    SomeFile(m);
  }

  lemma RootIsFile(m: Listing)
    ensures NamesFile(m.root, m.sep) == !IsDirName(m.root, m.sep)
  {
  }

  lemma ZerosAre(n: nat)
    ensures Zeros(n) == seq(n, _ => 0)
  {
  }

  lemma SomeFile(m: Listing)
    requires |m.subs| == |m.sums|
    ensures SomeSum(m, |m.subs|)
       <==> m.hasSums && exists i :: 0 <= i < |m.subs| && NamesFile(m.root + m.subs[i], m.sep)
  {
    hide NamesFile, Listing.HasSum;
    forall i | 0 <= i < |m.subs| ensures m.HasSum(i) <==> m.hasSums && NamesFile(m.root + m.subs[i], m.sep) {
      FileIsFile(m, i);
    }
  }

  // --- whatever is loaded ------------------------------------------------------------------------------------

  predicate Shape(r: Saved, root: seq<char>, count: nat) {
    && |r.paths| <= count && |r.sums| == count * r.sumSize && r.root == root
    && (r.paths != [] ==> r.paths[0] == root) && forall i :: 0 <= i < |r.paths| ==> root <= r.paths[i]
  }

  lemma {:induction false} AddSumShape(r: Saved, index: nat, hex: seq<char>, count: nat, root: seq<char>)
    requires index < count && Shape(r, root, count) && AddSum(r, index, hex, count).Some?
    ensures Shape(AddSum(r, index, hex, count).value, root, count)
    ensures AddSum(r, index, hex, count).value.paths == r.paths
  {
    hide Unhex;
    if hex != [] {
      MulRoom(index, count, if r.sumSize == 0 then |hex| / 2 else r.sumSize);
    }
  }

  lemma {:induction false} PathsShape(cur: seq<char>, r: Saved, t: Setting, root: seq<char>)
    requires Shape(r, root, t.count) && LoadPaths(cur, r, t).Some?
    ensures var r1 := LoadPaths(cur, r, t).value;
      Shape(r1, root, t.count) && |r1.paths| == t.count > 0
    decreases |cur|
  {
    hide AddSum, TakeLine, FindTag, FromSaved, StripCr;
    var tag := FindTag(cur, "\n" + PATH_TAG);
    if tag.Some? {
      var (line, rest) := TakeLine(tag.value);
      var (hex, sub) := ParseRecord(StripCr(line), r.paths == [], t).value;
      EmptyPath(t.sep);
      NextPath(r, root, t.count, FromSaved(sub, t.sep));
      var r0 := r.(paths := r.paths + [r.root + FromSaved(sub, t.sep)]);
      AddSumShape(r0, |r.paths|, hex, t.count, root);
      PathsShape(rest, AddSum(r0, |r.paths|, hex, t.count).value, t, root);
    }
  }

  lemma EmptyPath(sep: char)
    ensures FromSaved([], sep) == []
  {
  }

  lemma NextPath(r: Saved, root: seq<char>, count: nat, path: seq<char>)
    requires Shape(r, root, count) && |r.paths| < count && (r.paths == [] ==> path == [])
    ensures Shape(r.(paths := r.paths + [r.root + path]), root, count)
  {
    assert root + [] == root;
  }

  /** Whatever text is loaded: as many paths as it announces, at least one; the root first, a directory
      with a separator at its end; all paths begin with the root; room for one checksum for each path. */
  lemma {:induction false} LoadedShape(text: seq<char>, root: seq<char>, rootIsFile: bool, sep: char)
    requires Load(text, root, rootIsFile, sep).Some?
    ensures var r := Load(text, root, rootIsFile, sep).value;
      && r.paths != [] && (r.paths[0] == root || (!rootIsFile && r.paths[0] == root + [sep]))
      && (!rootIsFile ==> !NamesFile(r.paths[0], sep))
      && (forall i :: 0 <= i < |r.paths| ==> r.paths[0] <= r.paths[i])
      && |r.sums| == |r.paths| * r.sumSize
  {
    hide LoadPaths, FindTag, TakeLine, StripCr, Parse;
    var first := FindTag(text, "\n" + TYPE_TAG);
    var cur := if first.None? then text else TakeLine(first.value).1;
    var sumType := if first.None? then [] else StripCr(TakeLine(first.value).0);
    CountShape(cur, sumType, root, rootIsFile, sep);
  }

  lemma {:induction false} CountShape(cur: seq<char>, sumType: seq<char>, root: seq<char>, rootIsFile: bool, sep: char)
    requires LoadCount(cur, sumType, root, rootIsFile, sep).Some?
    ensures var r := LoadCount(cur, sumType, root, rootIsFile, sep).value;
      Shape(r, RootPath(root, rootIsFile, sep), |r.paths|) && r.paths != []
  {
    hide LoadPaths, FindTag, TakeLine, StripCr, Parse;
    var (line, rest) := TakeLine(FindTag(cur, "\n" + COUNT_TAG).value);
    var count := Parse(StripCr(line)).value;
    var path := RootPath(root, rootIsFile, sep);
    PathsShape(rest, Saved(path, [], sumType, 0, []), Setting(count, sumType != [], rootIsFile, sep), path);
  }
}
