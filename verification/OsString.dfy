/** `os_strlcpy` and the two places that rely on it. */
module OsString {

  /** `s` holds a NUL-terminated C string. */
  predicate Terminated(s: string) {
    exists i :: 0 <= i < |s| && s[i] == '\0'
  }

  /** strlen: the index of the first NUL. */
  function StrLen(s: string): (n: nat)
    requires Terminated(s)
    ensures n < |s| && s[n] == '\0' && forall i :: 0 <= i < n ==> s[i] != '\0'
  {
    if s[0] == '\0' then 0
    else
      assert Terminated(s[1..]) by {
        var i :| 0 <= i < |s| && s[i] == '\0';
        assert s[1..][i - 1] == '\0';
      }
      1 + StrLen(s[1..])
  }

  function CString(s: string): string
    requires Terminated(s)
  {
    s[..StrLen(s)]
  }

  lemma StrLenUnique(s: string, n: nat)
    requires n < |s| && s[n] == '\0' && forall i :: 0 <= i < n ==> s[i] != '\0'
    ensures Terminated(s) && StrLen(s) == n
  {
  }

  function Min(a: int, b: int): int {
    if a < b then a else b
  }

  /** What the copy leaves at the destination: as much of the string as fits in
      front of a NUL, and nothing at all in a buffer of size zero. */
  function Copied(src: string, siz: nat): string
    requires Terminated(src)
  {
    if siz == 0 then "" else src[..Min(StrLen(src), siz - 1)] + "\0"
  }

  /** `text` written over `s` from index `at`. */
  function Overwrite(s: string, at: nat, text: string): string
    requires at + |text| <= |s|
  {
    s[..at] + text + s[at + |text|..]
  }

  /** Every byte in the range is replaced, and no other. */
  lemma OverwriteExact(s: string, at: nat, text: string, i: nat)
    requires at + |text| <= |s| && i < |s|
    ensures |Overwrite(s, at, text)| == |s|
    ensures Overwrite(s, at, text)[i] == if at <= i < at + |text| then text[i - at] else s[i]
  {
  }

  /** The copy is the longest front of the string that leaves room for the NUL. */
  lemma CopiedExact(src: string, siz: nat)
    requires Terminated(src)
    ensures siz == 0 ==> Copied(src, siz) == ""
    ensures siz > 0 ==>
              var n := if StrLen(src) < siz then StrLen(src) else siz - 1;
              |Copied(src, siz)| == n + 1 && Copied(src, siz)[n] == '\0' && Copied(src, siz)[..n] == src[..n]
  {
  }

  /** Overwriting goes on byte by byte. */
  lemma OverwriteNext(s: string, at: nat, text: string, k: nat, r: string)
    requires k < |text| && at + k < |s|
    requires r == Overwrite(s, at, text[..k])[at + k := text[k]]
    ensures r == Overwrite(s, at, text[..k + 1])
  {
  }

  /** Moves past the NUL that ends the string. */
  method PastEnd(src: array<char>, start: nat, from: nat) returns (s: nat)
    requires start <= src.Length && Terminated(src[start..]) && from <= StrLen(src[start..])
    ensures s == StrLen(src[start..]) + 1
  {
    s := from;
    while src[start + s] != '\0'
      invariant s <= StrLen(src[start..])
      decreases StrLen(src[start..]) - s
    {
      assert src[start + s] == src[start..][s];
      s := s + 1;
    }
    assert src[start + s] == src[start..][s];
    s := s + 1;
  }

  /** Copies at most `room` characters, NUL included: all of the string, or `room` of it. */
  method CopyUntilNul(dest: array<char>, at: nat, src: array<char>, start: nat, room: nat) returns (s: nat, left: nat)
    requires dest != src
    requires start <= src.Length && Terminated(src[start..])
    requires at + Min(StrLen(src[start..]) + 1, room) <= dest.Length
    modifies dest
    ensures s == Min(StrLen(src[start..]) + 1, room)
    ensures left == 0 <==> room <= StrLen(src[start..])
    ensures dest[..] == Overwrite(old(dest[..]), at, src[start..][..s])
  {
    ghost var before, from := dest[..], src[start..];
    s, left := 0, room;
    while left != 0
      invariant s <= StrLen(from) && s + left == room
      invariant dest[..] == Overwrite(before, at, from[..s])
      decreases left
    {
      var c := src[start + s];
      assert c == from[s];
      dest[at + s] := c;
      OverwriteNext(before, at, from, s, dest[..]);
      s := s + 1;
      if c == '\0' { break; }
      left := left - 1;
    }
  }

  /** The caller owns as many bytes as are written, which may be fewer than `siz`. */
  method OsStrlcpy(dest: array<char>, at: nat, src: array<char>, start: nat, siz: nat) returns (len: nat)
    requires dest != src
    requires start <= src.Length && Terminated(src[start..])
    requires at + |Copied(src[start..], siz)| <= dest.Length
    modifies dest
    ensures len == StrLen(src[start..])
    ensures dest[..] == Overwrite(old(dest[..]), at, Copied(src[start..], siz))
  {
    ghost var before, from := dest[..], src[start..];
    ghost var text := Copied(from, siz);
    var s, left := 0, siz;
    if left != 0 {
      CopiedPrefix(from, siz);
      s, left := CopyUntilNul(dest, at, src, start, left - 1);
      assert src[start..] == from;
      assert dest[..] == Overwrite(before, at, text[..s]);
    } else {
      assert dest[..] == Overwrite(before, at, "");
    }
    if left == 0 {
      if siz != 0 {
        PutNul(dest, at, before, text, s);
      }
      s := PastEnd(src, start, s);
    }
    len := s - 1;
  }

  /** The NUL behind the `s` characters copied. */
  method PutNul(dest: array<char>, at: nat, ghost before: string, ghost text: string, s: nat)
    requires |text| == s + 1 && text[s] == '\0' && at + |text| <= |before| == dest.Length
    requires dest[..] == Overwrite(before, at, text[..s])
    modifies dest
    ensures dest[..] == Overwrite(before, at, text)
  {
    dest[at + s] := '\0';
    OverwriteNext(before, at, text, s, dest[..]);
    assert text[..|text|] == text;
  }

  lemma CopiedPrefix(src: string, siz: nat)
    requires Terminated(src) && siz > 0
    ensures var s, text := Min(StrLen(src) + 1, siz - 1), Copied(src, siz);
            && s <= |text| && src[..s] == text[..s]
            && (if siz - 1 <= StrLen(src) then |text| == s + 1 && text[s] == '\0' else |text| == s)
  {
  }

  /** The string survives the copy exactly when the returned length is below the size. */
  lemma CopyIsWhole(src: string, siz: nat)
    requires Terminated(src)
    ensures StrLen(src) < siz <==> Terminated(Copied(src, siz)) && CString(Copied(src, siz)) == CString(src)
  {
    if siz > 0 {
      var n := Min(StrLen(src), siz - 1);
      StrLenUnique(Copied(src, siz), n);
      assert CString(Copied(src, siz)) == src[..n];
    }
  }

  // ------------------------------------------------------- path of the control socket

  /** sizeof(sun_path) */
  const PATH_SIZE := 108

  const ABSTRACT := "@abstract:"

  /** The part of wpa_ctrl_open that fills `sun_path`, which is all zeros. A
      path that does not fit is refused, but an abstract name is cut silently. */
  method CopyPath(sunPath: array<char>, path: array<char>) returns (ok: bool)
    requires sunPath != path && sunPath.Length == PATH_SIZE
    requires forall i :: 0 <= i < PATH_SIZE ==> sunPath[i] == '\0'
    requires Terminated(path[..])
    modifies sunPath
    ensures var name := CString(path[..]);
            if ABSTRACT <= name then
              && ok && sunPath[0] == '\0' && Terminated(sunPath[1..])
              && CString(sunPath[1..]) == name[10..if |name| < 116 then |name| else 116]
            else
              && (ok <==> |name| < 108)
              && (ok ==> Terminated(sunPath[..]) && CString(sunPath[..]) == name)
  {
    var isAbstract := IsAbstract(path);
    if isAbstract {
      CopyAbstract(sunPath, path);
      ok := true;
    } else {
      ok := CopyPlain(sunPath, path);
    }
  }

  method CopyAbstract(sunPath: array<char>, path: array<char>)
    requires sunPath != path && sunPath.Length == PATH_SIZE
    requires Terminated(path[..]) && StrLen(path[..]) >= 10
    modifies sunPath
    ensures sunPath[0] == '\0' && Terminated(sunPath[1..])
    ensures var name := CString(path[..]); CString(sunPath[1..]) == name[10..Min(|name|, PATH_SIZE + 8)]
  {
    TerminatedFrom(path[..], 10);
    CutName(path[..]);
    assert path[..][10..] == path[10..];
    sunPath[0] := '\0';
    var res := CopyAsString(sunPath, 1, path, 10, PATH_SIZE - 1);
    assert sunPath[0] == sunPath[..1][0];
  }

  method CopyPlain(sunPath: array<char>, path: array<char>) returns (ok: bool)
    requires sunPath != path && sunPath.Length == PATH_SIZE
    requires Terminated(path[..])
    modifies sunPath
    ensures var name := CString(path[..]);
            && (ok <==> |name| < PATH_SIZE)
            && (ok ==> Terminated(sunPath[..]) && CString(sunPath[..]) == name)
  {
    assert path[0..] == path[..];
    var res := CopyAsString(sunPath, 0, path, 0, PATH_SIZE);
    ok := res < PATH_SIZE;
    assert sunPath[0..] == sunPath[..];
  }

  /** What is kept of an abstract name, seen from behind its prefix. */
  lemma CutName(s: string)
    requires Terminated(s) && StrLen(s) >= 10
    ensures s[10..][..Min(StrLen(s) - 10, PATH_SIZE - 2)] == CString(s)[10..Min(|CString(s)|, PATH_SIZE + 8)]
  {
    PieceOfPrefix(s, 10, Min(StrLen(s) - 10, PATH_SIZE - 2), StrLen(s));
  }

  lemma PieceOfPrefix(s: string, from: nat, n: nat, m: nat)
    requires from + n <= m <= |s|
    ensures s[from..][..n] == s[..m][from..from + n]
  {
    assert |s[from..][..n]| == n == |s[..m][from..from + n]|;
    forall i | 0 <= i < n ensures s[from..][..n][i] == s[..m][from..from + n][i] {}
  }

  /** OsStrlcpy, seen as a copy of C strings. */
  method CopyAsString(dest: array<char>, at: nat, src: array<char>, start: nat, siz: nat) returns (len: nat)
    requires dest != src && start <= src.Length && Terminated(src[start..])
    requires 0 < siz && at + siz <= dest.Length
    modifies dest
    ensures len == StrLen(src[start..])
    ensures Terminated(dest[at..]) && CString(dest[at..]) == src[start..][..Min(len, siz - 1)]
    ensures dest[..at] == old(dest[..at])
  {
    ghost var before, text := dest[..], src[start..];
    len := OsStrlcpy(dest, at, src, start, siz);
    CopiedThenNul(before, at, text, siz);
    assert dest[..][at..] == dest[at..];
    assert dest[..at] == dest[..][..at] == before[..at];
  }

  /** os_strncmp(path, "@abstract:", 10) == 0 */
  method IsAbstract(path: array<char>) returns (b: bool)
    requires Terminated(path[..])
    ensures b <==> ABSTRACT <= CString(path[..])
  {
    b := BeginsWith(path, ABSTRACT);
  }

  method BeginsWith(path: array<char>, word: string) returns (b: bool)
    requires Terminated(path[..]) && '\0' !in word
    ensures b <==> word <= CString(path[..])
  {
    ghost var name := CString(path[..]);
    var i := 0;
    while i < |word| && path[i] == word[i]
      invariant i <= |word| && i <= |name| && name[..i] == word[..i]
    {
      assert path[..][i] != '\0';
      i := i + 1;
    }
    b := i == |word|;
    BeginsByIndex(name, word, i);
  }

  /** `i` characters agree, and the next one ends the comparison. */
  lemma BeginsByIndex(s: string, word: string, i: nat)
    requires i <= |word| && i <= |s| && s[..i] == word[..i]
    requires i < |word| && i < |s| ==> s[i] != word[i]
    ensures i == |word| <==> word <= s
  {
    if i == |word| { assert word[..i] == word; }
  }

  lemma TerminatedFrom(s: string, k: nat)
    requires Terminated(s) && k <= StrLen(s)
    ensures Terminated(s[k..]) && StrLen(s[k..]) == StrLen(s) - k
  {
    StrLenUnique(s[k..], StrLen(s) - k);
  }

  lemma CopiedThenNul(before: string, at: nat, src: string, siz: nat)
    requires Terminated(src) && siz > 0 && at + |Copied(src, siz)| <= |before|
    ensures var r := Overwrite(before, at, Copied(src, siz))[at..];
            Terminated(r) && CString(r) == src[..Min(StrLen(src), siz - 1)]
  {
    var r := Overwrite(before, at, Copied(src, siz))[at..];
    var n := Min(StrLen(src), siz - 1);
    assert r[..n] == src[..n];
    assert forall i :: 0 <= i < n ==> r[i] == src[i];
    StrLenUnique(r, n);
  }

  // ------------------------------------------------------------------ cookie prefix

  /** The buffer wpa_ctrl_request builds in the UDP build. */
  method PrefixCookie(cookie: array<char>, cmd: array<char>, at: nat, cmdLen: nat) returns (buf: array<char>)
    requires Terminated(cookie[..])
    requires at + cmdLen <= cmd.Length
    ensures fresh(buf)
    ensures buf[..] == CString(cookie[..]) + " " + cmd[at..at + cmdLen]
  {
    ghost var name := CString(cookie[..]);
    assert cookie[0..] == cookie[..];
    var pos := OsStrlen(cookie);
    buf := new char[pos + 1 + cmdLen];
    var len := OsStrlcpy(buf, 0, cookie, 0, pos + 1 + cmdLen);
    assert buf[..pos] == name;
    buf[pos] := ' ';
    CopyBehind(buf, pos + 1, name + " ", cmd, at, cmdLen);
    assert cookie[0..] == cookie[..];
  }

  /** os_memcpy to the end of a buffer. */
  method CopyBehind(buf: array<char>, pos: nat, ghost head: string, cmd: array<char>, at: nat, cmdLen: nat)
    requires buf != cmd && at + cmdLen <= cmd.Length && buf.Length == pos + cmdLen
    requires buf[..pos] == head
    modifies buf
    ensures buf[..] == head + cmd[at..at + cmdLen]
  {
    forall i | 0 <= i < cmdLen { buf[pos + i] := cmd[at + i]; }
    assert buf[..pos] == head;
    assert buf[pos..] == cmd[at..at + cmdLen];
    assert buf[..] == buf[..pos] + buf[pos..];
  }

  method OsStrlen(s: array<char>) returns (n: nat)
    requires Terminated(s[..])
    ensures n == StrLen(s[..])
  {
    n := 0;
    while s[n] != '\0'
      invariant n <= StrLen(s[..])
      decreases StrLen(s[..]) - n
    {
      assert s[..][n] == s[n];
      n := n + 1;
    }
    assert s[..][n] == s[n];
  }
}
