/** File-path helpers. Both `/` and `\` separate directories; the last
    `.` starts an extension. Positions are `size_t` in the source; `npos`
    is written -1 here. */
module Paths {

  predicate IsSeparator(c: char) {
    c == '/' || c == '\\'
  }

  /** `find_last_of`: the last position whose character satisfies the
      test, or -1. */
  function FindLastSeparator(s: string): (r: int)
    ensures -1 <= r < |s|
    ensures r >= 0 ==> IsSeparator(s[r])
    ensures forall k :: r < k < |s| ==> !IsSeparator(s[k])
  {
    if |s| == 0 then -1
    else if IsSeparator(s[|s| - 1]) then |s| - 1
    else FindLastSeparator(s[..|s| - 1])
  }

  function FindLastDot(s: string): (r: int)
    ensures -1 <= r < |s|
    ensures r >= 0 ==> s[r] == '.'
    ensures forall k :: r < k < |s| ==> s[k] != '.'
  {
    if |s| == 0 then -1
    else if s[|s| - 1] == '.' then |s| - 1
    else FindLastDot(s[..|s| - 1])
  }

  predicate NoSeparator(s: string) {
    forall k :: 0 <= k < |s| ==> !IsSeparator(s[k])
  }

  /** `DirNameOf`: everything before the last separator, or `./` when
      there is none. */
  function DirNameOf(fname: string): (r: string)
    ensures FindLastSeparator(fname) == -1 ==> r == "./"
    ensures FindLastSeparator(fname) >= 0 ==> |r| < |fname| && r <= fname && IsSeparator(fname[|r|])
  {
    var pos := FindLastSeparator(fname);
    if pos == -1 then "./" else fname[..pos]
  }

  /** `FileNameOf`: everything after the last separator, or the whole name
      when there is none. The result never holds a separator and is a
      suffix of the input. */
  function FileNameOf(fname: string): (r: string)
    ensures NoSeparator(r)
    ensures |r| <= |fname| && fname[|fname| - |r|..] == r
    ensures NoSeparator(fname) ==> r == fname
  {
    var pos := FindLastSeparator(fname);
    if pos != -1 then fname[pos + 1..] else fname
  }

  /** A name with a separator is its directory, that separator and its
      file name. */
  lemma DirAndFileName(fname: string)
    requires !NoSeparator(fname)
    ensures DirNameOf(fname) + [fname[|DirNameOf(fname)|]] + FileNameOf(fname) == fname
  {
    var pos := FindLastSeparator(fname);
    assert pos >= 0;
    assert fname == fname[..pos] + [fname[pos]] + fname[pos + 1..];
  }

  /** `IsDirectoryName`: non-empty and ending in a separator. Such a name
      is exactly a non-empty one whose file name is empty, and it is its
      directory followed by that last separator. */
  function IsDirectoryName(s: string): (r: bool)
    ensures r <==> |s| > 0 && FileNameOf(s) == ""
    ensures r ==> DirNameOf(s) + [s[|s| - 1]] == s
  {
    |s| > 0 && (s[|s| - 1] == '/' || s[|s| - 1] == '\\')
  }

  /** `FileNameExtOf` as the source writes it: from the last `.` of the
      whole name to the end, or empty. The position after the last
      separator is computed but not used, so a `.` in a directory name
      counts when the file name has none. */
  function FileNameExtOf(fname: string): (r: string)
    ensures r == "" || (r[0] == '.' && |r| <= |fname| && fname[|fname| - |r|..] == r)
    ensures forall k :: 0 < k < |r| ==> r[k] != '.'
    ensures FindLastDot(fname) == -1 <==> r == ""
  {
    var endPos := FindLastDot(fname);
    if endPos != -1 then fname[endPos..] else ""
  }

  /** The extension the helper evidently means: from the last `.` of the
      file name, so it never holds a separator. */
  function FileNameExtOfIntended(fname: string): (r: string)
    ensures r == "" || r[0] == '.'
    ensures NoSeparator(r)
    ensures forall k :: 0 < k < |r| ==> r[k] != '.'
    ensures FindLastDot(FileNameOf(fname)) == -1 <==> r == ""
    ensures |r| <= |FileNameOf(fname)| && r == FileNameOf(fname)[|FileNameOf(fname)| - |r|..]
  {
    var name := FileNameOf(fname);
    var endPos := FindLastDot(name);
    if endPos != -1 then name[endPos..] else ""
  }

  /** `.` in a directory name and none in the file name: the source's
      extension reaches across the separator. */
  lemma FileNameExtOfCrossesSeparator()
    ensures FileNameExtOf("a.b/c") == ".b/c"
    ensures FileNameExtOfIntended("a.b/c") == ""
  {
    var f := "a.b/c";
    assert f[..4] == "a.b/" && f[..4][..3] == "a.b" && f[..4][..3][..2] == "a.";
    assert FindLastDot("a.") == 1;
    assert FindLastDot("a.b") == 1;
    assert FindLastDot("a.b/") == 1;
    assert FindLastDot(f) == 1;
    assert FindLastSeparator(f) == 3;
    assert FileNameOf(f) == "c";
  }

  /** 2^64: `size_t` arithmetic wraps modulo this. */
  const SIZE_T_MODULUS: int := 0x1_0000_0000_0000_0000

  /** `s.substr(pos, n)`: at most `n` characters from `pos`. */
  function Substr(s: string, pos: nat, n: nat): (r: string)
    requires pos <= |s|
    ensures r == s[pos..if n < |s| - pos then pos + n else |s|]
  {
    if n < |s| - pos then s[pos..pos + n] else s[pos..]
  }

  /** `FileNameWithoutExtOf`: the file name up to its last `.`. The length
      `end_pos - start_pos` is `size_t`; when the last `.` lies in a
      directory name the difference wraps round to a huge count and the
      whole file name is taken. Strings are shorter than `2^64`. */
  function FileNameWithoutExtOf(fname: string): (r: string)
    requires |fname| < SIZE_T_MODULUS
    ensures NoSeparator(r)
    ensures r + FileNameExtOfIntended(fname) == FileNameOf(fname)
  {
    var sep := FindLastSeparator(fname);
    var startPos := if sep != -1 then sep + 1 else 0;
    var endPos := FindLastDot(fname);
    var name := fname[startPos..];
    LastDotOfSuffix(fname, startPos);
    var r := if endPos != -1 then
               SubstrCount(endPos, startPos, |fname|);
               Substr(fname, startPos, (endPos - startPos) % SIZE_T_MODULUS)
             else
               fname[startPos..];
    assert endPos >= startPos ==> r == name[..endPos - startPos];
    StemAndExtension(fname, name, r);
    r
  }

  /** The file name is its stem followed by the (intended) extension. */
  lemma StemAndExtension(fname: string, name: string, r: string)
    requires name == FileNameOf(fname)
    requires var d := FindLastDot(name); r == if d == -1 then name else name[..d]
    ensures NoSeparator(r)
    ensures r + FileNameExtOfIntended(fname) == name
  {
    var d := FindLastDot(name);
    if d != -1 {
      assert name == name[..d] + name[d..];
    }
  }

  lemma SmallLength(n: int)
    requires 0 <= n < SIZE_T_MODULUS
    ensures n % SIZE_T_MODULUS == n
  {
  }

  /** The count passed to `substr`: the distance to the dot when it lies
      in the file name, and otherwise a wrapped value no smaller than the
      rest of the string. */
  lemma SubstrCount(endPos: int, startPos: int, len: int)
    requires 0 <= endPos < len < SIZE_T_MODULUS && 0 <= startPos <= len
    ensures endPos >= startPos ==> (endPos - startPos) % SIZE_T_MODULUS == endPos - startPos
    ensures endPos < startPos ==> (endPos - startPos) % SIZE_T_MODULUS >= len - startPos
  {
    if endPos >= startPos {
      SmallLength(endPos - startPos);
    } else {
      WrappedLength(endPos, startPos, len);
    }
  }

  /** The last `.` of a suffix is the last `.` of the whole string, moved,
      when it falls inside the suffix; otherwise the suffix has none. */
  lemma LastDotOfSuffix(s: string, start: nat)
    requires start <= |s|
    ensures var d := FindLastDot(s);
            FindLastDot(s[start..]) == if d >= start then d - start else -1
  {
    var name := s[start..];
    var d := FindLastDot(s);
    var e := FindLastDot(name);
    if e >= 0 {
      assert name[e] == s[start + e];
    }
    if d >= start {
      assert name[d - start] == '.';
    }
  }

  /** A negative difference taken modulo 2^64 is at least the length of
      any string. */
  lemma WrappedLength(endPos: int, startPos: int, len: int)
    requires 0 <= endPos < startPos <= len < SIZE_T_MODULUS
    ensures (endPos - startPos) % SIZE_T_MODULUS == endPos - startPos + SIZE_T_MODULUS
    ensures (endPos - startPos) % SIZE_T_MODULUS >= len - startPos
  {
  }

  /** With the source's extension the two halves do not always give the
      file name back. */
  lemma FileNameSplitAsWritten()
    ensures FileNameWithoutExtOf("a.b/c") + FileNameExtOf("a.b/c") != FileNameOf("a.b/c")
  {
    FileNameExtOfCrossesSeparator();
    assert FileNameWithoutExtOf("a.b/c") == "c";
  }

  /** `path[i]` on a `std::string`: reading at the length gives the
      terminating NUL. */
  function CharAt(s: string, i: int): char {
    if 0 <= i < |s| then s[i] else '\0'
  }

  /** The test the source puts in front of the relative-path handling:
      the first character is not `/`, or not `\`, or the second is not
      `:`. No character is both `/` and `\`, so it always holds. */
  predicate CombineGuard(filePath: string) {
    CharAt(filePath, 0) != '/' || CharAt(filePath, 0) != '\\' || CharAt(filePath, 1) != ':'
  }

  lemma CombineGuardAlwaysHolds(filePath: string)
    ensures CombineGuard(filePath)
  {
  }

  /** The relative-path treatment: a leading `./` unless the path already
      starts with `.`, then the directory and a `/` in front when a
      directory is given. */
  function AsRelative(dirPath: string, filePath: string): (r: string)
    ensures CharAt(filePath, 0) == '.' && dirPath == "" ==> r == filePath
    ensures CharAt(filePath, 0) != '.' && dirPath == "" ==> r == "./" + filePath
    ensures CharAt(filePath, 0) == '.' && dirPath != "" ==> r == dirPath + "/" + filePath
    ensures CharAt(filePath, 0) != '.' && dirPath != "" ==> r == dirPath + "/" + "./" + filePath
  {
    var path := if CharAt(filePath, 0) != '.' then "./" + filePath else filePath;
    if dirPath != "" then dirPath + "/" + path else path
  }

  /** `CombineDirectoryPathAndFilepath` as the source writes it: because
      its guard always holds, every path is treated as relative. */
  function CombineDirectoryPathAndFilepath(dirPath: string, filePath: string): (r: string)
    ensures r == AsRelative(dirPath, filePath)
    ensures |r| >= |filePath| && r[|r| - |filePath|..] == filePath
  {
    CombineGuardAlwaysHolds(filePath);
    if CombineGuard(filePath) then AsRelative(dirPath, filePath) else filePath
  }

  /** An absolute path is prefixed all the same. */
  lemma CombineAbsoluteAsWritten()
    ensures CombineDirectoryPathAndFilepath("d", "/a") == "d/.//a"
  {
  }

  /** A path that starts at a root (`/` or `\`) or with a drive letter. */
  predicate IsAbsolutePath(filePath: string) {
    CharAt(filePath, 0) == '/' || CharAt(filePath, 0) == '\\' || CharAt(filePath, 1) == ':'
  }

  /** The combination the comment in the source describes: only relative
      paths are prefixed; absolute paths come back unchanged. */
  function CombineDirectoryPathAndFilepathIntended(dirPath: string, filePath: string): (r: string)
    ensures IsAbsolutePath(filePath) ==> r == filePath
    ensures !IsAbsolutePath(filePath) ==> r == AsRelative(dirPath, filePath)
    ensures |r| >= |filePath| && r[|r| - |filePath|..] == filePath
  {
    if CharAt(filePath, 0) != '/' && CharAt(filePath, 0) != '\\' && CharAt(filePath, 1) != ':' then
      AsRelative(dirPath, filePath)
    else
      filePath
  }

  lemma CombineAbsoluteIntended()
    ensures CombineDirectoryPathAndFilepathIntended("d", "/a") == "/a"
  {
  }
}
