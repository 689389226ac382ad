/** Character buffers that hold a text ended by a NUL, and the C library calls used on them. */
module CString {
  import opened Results

  predicate NoNul(t: string) { forall i :: 0 <= i < |t| ==> t[i] != '\0' }

  predicate HoldsText(s: seq<char>) { exists i :: 0 <= i < |s| && s[i] == '\0' }

  /** strlen */
  function StrLen(s: seq<char>): (n: nat)
    requires HoldsText(s)
    ensures n < |s| && s[n] == '\0' && NoNul(s[..n])
  {
    if s[0] == '\0' then 0
    else
      assert forall i :: 0 < i < |s| ==> s[i] == s[1..][i - 1];
      var n := 1 + StrLen(s[1..]);
      assert s[..n] == [s[0]] + s[1..][..n - 1];
      n
  }

  /** The text in the buffer. */
  function Str(s: seq<char>): string
    requires HoldsText(s)
  {
    s[..StrLen(s)]
  }

  lemma StrIs(s: seq<char>, t: string)
    requires NoNul(t) && |t| < |s| && s[..|t|] == t && s[|t|] == '\0'
    ensures HoldsText(s) && StrLen(s) == |t| && Str(s) == t
  {
    assert forall i :: 0 <= i < |t| ==> s[i] == s[..|t|][i];
    assert forall i :: 0 <= i < StrLen(s) ==> s[i] == s[..StrLen(s)][i];
  }

  /** sprintf at an offset into a buffer: the text and its NUL, all inside the buffer. */
  method Put(buf: array<char>, at: nat, t: string)
    requires at + |t| < buf.Length
    modifies buf
    ensures buf[..] == old(buf[..at]) + t + ['\0'] + old(buf[at + |t| + 1..])
  {
    var i := 0;
    while i < |t|
      invariant 0 <= i <= |t|
      invariant forall j :: 0 <= j < i ==> buf[at + j] == t[j]
      invariant forall j :: 0 <= j < at || at + i <= j < buf.Length ==> buf[j] == old(buf[j])
    {
      buf[at + i] := t[i];
      i := i + 1;
    }
    buf[at + |t|] := '\0';
    assert forall j :: at <= j < at + |t| ==> buf[j] == t[j - at] by {
      assert forall j :: at <= j < at + |t| ==> buf[j] == buf[at + (j - at)];
    }
  }

  /** Replace the end of the text. */
  method PutEnd(buf: array<char>, ghost text: string, at: nat, t: string)
    requires HoldsText(buf[..]) && Str(buf[..]) == text && at <= |text|
    requires at + |t| < buf.Length && NoNul(text) && NoNul(t)
    modifies buf
    ensures HoldsText(buf[..]) && Str(buf[..]) == text[..at] + t
  {
    ghost var was := buf[..];
    assert was[..at] == text[..at];
    Put(buf, at, t);
    StrIs(buf[..], text[..at] + t);
  }

  /** strcat of at most n characters: the buffer must have room for what is appended. */
  method StrNCat(buf: array<char>, t: string, n: nat)
    requires HoldsText(buf[..]) && NoNul(t)
    requires |Str(buf[..])| + |Truncate(t, n)| < buf.Length
    modifies buf
    ensures HoldsText(buf[..]) && Str(buf[..]) == old(Str(buf[..])) + Truncate(t, n)
  {
    ghost var was := Str(buf[..]);
    var at := StrLen(buf[..]);
    Put(buf, at, Truncate(t, n));
    StrIs(buf[..], was + Truncate(t, n));
  }

  function Truncate(t: string, n: nat): string {
    if |t| <= n then t else t[..n]
  }

  /** p is the first place of c in t at or after from, or None when there is none. */
  predicate FirstAt(t: string, from: nat, c: char, p: Option<nat>)
    requires from <= |t|
  {
    match p
    case Some(k) => from <= k < |t| && t[k] == c && forall j :: from <= j < k ==> t[j] != c
    case None => forall j :: from <= j < |t| ==> t[j] != c
  }

  /** p is the last place of c in t, or None when there is none. */
  predicate LastAt(t: string, c: char, p: Option<nat>) {
    match p
    case Some(k) => k < |t| && t[k] == c && forall j :: k < j < |t| ==> t[j] != c
    case None => forall j :: 0 <= j < |t| ==> t[j] != c
  }

  /** strchr from an offset */
  method StrChr(buf: array<char>, from: nat, c: char) returns (p: Option<nat>)
    requires HoldsText(buf[..]) && from <= |Str(buf[..])| && c != '\0'
    ensures FirstAt(Str(buf[..]), from, c, p)
  {
    var i := from;
    var n := StrLen(buf[..]);
    while i < n && buf[i] != c
      invariant from <= i <= n
      invariant forall j :: from <= j < i ==> buf[j] != c
    {
      i := i + 1;
    }
    p := if i < n then Some(i) else None;
  }

  /** strrchr */
  method StrRChr(buf: array<char>, c: char) returns (p: Option<nat>)
    requires HoldsText(buf[..]) && c != '\0'
    ensures LastAt(Str(buf[..]), c, p)
  {
    var n := StrLen(buf[..]);
    var i := n;
    while i > 0 && buf[i - 1] != c
      invariant 0 <= i <= n
      invariant forall j :: i <= j < n ==> buf[j] != c
    {
      i := i - 1;
    }
    p := if i > 0 then Some(i - 1) else None;
  }

  /** Ending the text early by writing a NUL. */
  lemma CutAt(s: seq<char>, t: string, p: nat)
    requires HoldsText(s) && p <= |Str(s)| && |t| == p && t == Str(s)[..p]
    ensures HoldsText(s[p := '\0']) && Str(s[p := '\0']) == t
  {
    StrIs(s[p := '\0'], t);
  }
}
