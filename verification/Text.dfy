/** Text: decimal numbers, and fields separated by dots. */
module Text {

  lemma JoinThree<X>(a: seq<X>, b: seq<X>, c: seq<X>)
    ensures a + (b + c) == a + b + c
  {
  }

  predicate IsDigit(c: char) { '0' <= c <= '9' }

  function Digit(n: int): (c: char)
    requires 0 <= n < 10
    ensures IsDigit(c) && DigitValue(c) == n
  {
    (n + 48) as char
  }

  function DigitValue(c: char): int
    requires IsDigit(c)
  {
    c as int - 48
  }

  /** What printf writes for "%lu", and for "%d" on a value that is not negative. */
  function Decimal(n: nat): (s: string)
    ensures 0 < |s| && forall i :: 0 <= i < |s| ==> IsDigit(s[i])
    ensures n > 0 ==> s[0] != '0'
  {
    if n < 10 then [Digit(n)] else Decimal(n / 10) + [Digit(n % 10)]
  }

  /** The value of the longest leading run of digits, as strtoul in base ten reads it. */
  function LeadingDigits(s: string): (k: nat)
    ensures k <= |s| && forall i :: 0 <= i < k ==> IsDigit(s[i])
    ensures k < |s| ==> !IsDigit(s[k])
  {
    if s == "" || !IsDigit(s[0]) then 0 else 1 + LeadingDigits(s[1..])
  }

  function DigitsValue(s: string): nat
    requires forall i :: 0 <= i < |s| ==> IsDigit(s[i])
  {
    if s == "" then 0
    else 10 * DigitsValue(s[..|s| - 1]) + DigitValue(s[|s| - 1])
  }

  function StrToUl(s: string): nat {
    DigitsValue(s[..LeadingDigits(s)])
  }

  lemma AllDigits(s: string)
    requires forall i :: 0 <= i < |s| ==> IsDigit(s[i])
    ensures LeadingDigits(s) == |s|
    ensures s[..LeadingDigits(s)] == s
  {
  }

  lemma {:induction false} DecimalValue(n: nat)
    ensures DigitsValue(Decimal(n)) == n
  {
    if n < 10 {
      assert DigitsValue([Digit(n)]) == 10 * DigitsValue([Digit(n)][..0]) + n;
    } else {
      DecimalValue(n / 10);
      var s := Decimal(n);
      assert s[..|s| - 1] == Decimal(n / 10);
    }
  }

  /** Reading back what was printed gives the number again. */
  lemma DecimalRoundTrip(n: nat)
    ensures StrToUl(Decimal(n)) == n
  {
    AllDigits(Decimal(n));
    DecimalValue(n);
  }

  /** Appending digits multiplies by a power of ten and adds. */
  lemma DigitsAppendTwo(s: string, a: char, b: char)
    requires forall i :: 0 <= i < |s| ==> IsDigit(s[i])
    requires IsDigit(a) && IsDigit(b)
    ensures DigitsValue(s + [a, b]) == 100 * DigitsValue(s) + 10 * DigitValue(a) + DigitValue(b)
  {
    var t := s + [a, b];
    assert t[..|t| - 1] == s + [a];
    assert (s + [a])[..|s|] == s;
  }

  // ---- Fields separated by dots ------------------------------------------

  predicate NoDot(s: string) {
    forall i :: 0 <= i < |s| ==> s[i] != '.'
  }

  predicate Plain(fs: seq<string>) {
    forall i :: 0 <= i < |fs| ==> NoDot(fs[i])
  }

  /** The fields of c followed by a text with the given fields. */
  function AddChar(c: char, fs: seq<string>): (r: seq<string>)
    requires 0 < |fs| && Plain(fs)
    ensures 0 < |r| && Plain(r)
  {
    if c == '.' then [""] + fs
    else
      assert NoDot(fs[0]);
      [[c] + fs[0]] + fs[1..]
  }

  /** The fields between the dots: always at least one, none holding a dot. */
  function Fields(s: string): (fs: seq<string>)
    ensures 0 < |fs| && Plain(fs)
  {
    if s == "" then [""] else AddChar(s[0], Fields(s[1..]))
  }

  lemma AddCharAppend(c: char, fs: seq<string>, gs: seq<string>)
    requires 0 < |fs| && Plain(fs) && Plain(gs)
    ensures Plain(fs + gs) && AddChar(c, fs + gs) == AddChar(c, fs) + gs
  {
    PlainAppend(fs, gs);
    assert (fs + gs)[0] == fs[0] && (fs + gs)[1..] == fs[1..] + gs;
    if c == '.' {
      assert [""] + (fs + gs) == [""] + fs + gs;
    } else {
      assert [[c] + fs[0]] + (fs[1..] + gs) == [[c] + fs[0]] + fs[1..] + gs;
    }
  }

  lemma PlainAppend(fs: seq<string>, gs: seq<string>)
    requires Plain(fs) && Plain(gs)
    ensures Plain(fs + gs)
  {
    forall i | 0 <= i < |fs + gs| ensures NoDot((fs + gs)[i]) {
      assert (fs + gs)[i] == if i < |fs| then fs[i] else gs[i - |fs|];
    }
  }

  function JoinDots(fs: seq<string>): string
    requires 0 < |fs|
  {
    if |fs| == 1 then fs[0] else fs[0] + "." + JoinDots(fs[1..])
  }

  lemma {:induction false} FieldsOfPlain(s: string)
    requires NoDot(s)
    ensures Fields(s) == [s]
  {
    if s != "" {
      FieldsOfPlain(s[1..]);
      assert [s[0]] + s[1..] == s;
    }
  }

  /** A dot separates the fields before it from the fields after it. */
  lemma {:induction false} FieldsOfDotted(a: string, b: string)
    ensures Fields(a + "." + b) == Fields(a) + Fields(b)
  {
    var t := a + "." + b;
    if a == "" {
      assert t[1..] == b && Fields(a) == [""];
    } else {
      assert t[0] == a[0] && t[1..] == a[1..] + "." + b;
      FieldsOfDotted(a[1..], b);
      AddCharAppend(a[0], Fields(a[1..]), Fields(b));
    }
  }

  lemma {:induction false} FieldsOfJoin(fs: seq<string>)
    requires 0 < |fs| && Plain(fs)
    ensures Fields(JoinDots(fs)) == fs
  {
    FieldsOfPlain(fs[0]);
    if |fs| > 1 {
      FieldsOfJoin(fs[1..]);
      FieldsOfDotted(fs[0], JoinDots(fs[1..]));
    }
  }

  lemma {:induction false} JoinOfFields(s: string)
    ensures JoinDots(Fields(s)) == s
  {
    if s != "" {
      JoinOfFields(s[1..]);
      var rest := Fields(s[1..]);
      if s[0] != '.' && |rest| > 1 {
        assert Fields(s)[1..] == rest[1..];
      }
    }
  }

  lemma {:induction false} JoinAppend(fs: seq<string>, gs: seq<string>)
    requires 0 < |fs| && 0 < |gs|
    ensures JoinDots(fs + gs) == JoinDots(fs) + "." + JoinDots(gs)
  {
    if |fs| == 1 {
      assert (fs + gs)[1..] == gs;
    } else {
      assert (fs + gs)[1..] == fs[1..] + gs;
      JoinAppend(fs[1..], gs);
    }
  }

  lemma JoinInjective(fs: seq<string>, gs: seq<string>)
    requires 0 < |fs| && Plain(fs)
    requires 0 < |gs| && Plain(gs)
    requires JoinDots(fs) == JoinDots(gs)
    ensures fs == gs
  {
    FieldsOfJoin(fs);
    FieldsOfJoin(gs);
  }

  /** w followed by a dot begins s exactly when the fields of w are leading fields of s and more follow. */
  lemma DottedPrefix(w: string, s: string)
    ensures w + "." <= s <==> |Fields(w)| < |Fields(s)| && Fields(s)[..|Fields(w)|] == Fields(w)
  {
    var n := |Fields(w)|;
    if w + "." <= s {
      var rest := s[|w| + 1..];
      assert s == w + "." + rest;
      FieldsOfDotted(w, rest);
    }
    if n < |Fields(s)| && Fields(s)[..n] == Fields(w) {
      var fs := Fields(s);
      assert fs == fs[..n] + fs[n..];
      JoinAppend(fs[..n], fs[n..]);
      JoinOfFields(s);
      JoinOfFields(w);
    }
  }
}
