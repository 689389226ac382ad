/** The growing string of the library: it doubles at most once before each append. */
module StringBuffer {
  import opened Arithmetic
  import opened CString

  const FILE_LEN: nat := 4096

  ghost predicate IsCapacity(size: nat) { exists k: nat :: size == FILE_LEN * Pow2(k) }

  class Buffer {
    var text: array<char>
    var len: nat
    var size: nat

    ghost predicate Valid()
      reads this, text
    {
      && size == text.Length && IsCapacity(size)
      && HoldsText(text[..]) && len == |Str(text[..])| < size
    }

    /** The text held. */
    ghost function Contents(): string
      requires Valid()
      reads this, text
    {
      Str(text[..])
    }

    /** ailsa_init_string */
    constructor ()
      ensures Valid() && Contents() == "" && size == FILE_LEN && len == 0 && fresh(text)
    {
      text := new char[FILE_LEN](_ => '\0');
      size := FILE_LEN;
      len := 0;
      new;
      StrIs(text[..], "");
      assert size == FILE_LEN * Pow2(0);
    }

    /** ailsa_resize_string: double, keeping the text. */
    method Resize()
      requires Valid()
      modifies this
      ensures Valid() && Contents() == old(Contents()) && len == old(len) && size == 2 * old(size) && fresh(text)
    {
      ghost var k: nat :| size == FILE_LEN * Pow2(k);
      var was := text;
      ghost var all, held := text[..], Str(text[..]);
      var tmp := new char[2 * size];
      forall i | 0 <= i < size { tmp[i] := was[i]; }
      assert tmp[..size] == all && all[..len] == held;
      assert tmp[..][..len] == tmp[..size][..len] && tmp[..][len] == '\0';
      StrIs(tmp[..], held);
      size := 2 * size;
      text := tmp;
      assert size == FILE_LEN * Pow2(k + 1);
    }

    /** ailsa_fill_string: append a text. One doubling is all there is, so the text must fit twice the size. */
    method Fill(s: string)
      requires Valid() && NoNul(s) && len + |s| < 2 * size
      modifies this, text
      ensures Valid() && Contents() == old(Contents()) + s && len == old(len) + |s|
      ensures size == SizeAfter(old(size), old(len), |s|)
      ensures text == old(text) || fresh(text)
    {
      if |s| + len >= size {
        Resize();
      }
      ghost var held := Str(text[..]);
      PutEnd(text, held, len, s);
      assert held[..len] == held;
      len := StrLen(text[..]);
    }

    /** Any number of appends. */
    method FillAll(texts: seq<string>)
      requires Valid() && Fit(size, len, texts) && forall i :: 0 <= i < |texts| ==> NoNul(texts[i])
      modifies this, text
      ensures Valid() && Contents() == old(Contents()) + Concat(texts)
      ensures (size, len) == After(old(size), old(len), texts)
    {
      hide Fit, After, Concat, HoldsText, Str, IsCapacity, SizeAfter, NoNul;
      assert texts[0..] == texts;
      var i := 0;
      while i < |texts|
        invariant 0 <= i <= |texts| && Valid() && (text == old(text) || fresh(text))
        invariant Fit(size, len, texts[i..]) && After(size, len, texts[i..]) == After(old(size), old(len), texts)
        invariant Contents() + Concat(texts[i..]) == old(Contents()) + Concat(texts)
      {
        assert texts[i..] == [texts[i]] + texts[i + 1..];
        FirstAppend(size, len, Contents(), texts[i], texts[i + 1..]);
        Fill(texts[i]);
        i := i + 1;
      }
      NoMoreAppends(size, len, Contents(), texts[i..]);
    }
  }

  /** The size after an append of n characters. */
  function SizeAfter(size: nat, len: nat, n: nat): nat {
    if n + len >= size then 2 * size else size
  }

  /** The append and its NUL stay inside the buffer exactly when the whole text is shorter than twice the old
      size; so they do whenever the appended text is no longer than the current capacity. */
  lemma AppendFits(size: nat, len: nat, n: nat)
    requires len < size
    ensures len + n + 1 <= SizeAfter(size, len, n) <==> len + n < 2 * size
    ensures n <= size ==> len + n < 2 * size
  {
  }

  function Concat(texts: seq<string>): string {
    if texts == [] then "" else texts[0] + Concat(texts[1..])
  }

  /** Each append of a sequence fits in turn. */
  predicate Fit(size: nat, len: nat, texts: seq<string>)
    decreases |texts|
  {
    texts == [] || (len + |texts[0]| < 2 * size
                    && Fit(SizeAfter(size, len, |texts[0]|), len + |texts[0]|, texts[1..]))
  }

  lemma NoMoreAppends(size: nat, len: nat, held: string, texts: seq<string>)
    requires texts == []
    ensures After(size, len, texts) == (size, len) && held + Concat(texts) == held
  {
  }

  lemma FirstAppend(size: nat, len: nat, held: string, text: string, rest: seq<string>)
    ensures Fit(size, len, [text] + rest)
            ==> len + |text| < 2 * size && Fit(SizeAfter(size, len, |text|), len + |text|, rest)
    ensures After(size, len, [text] + rest) == After(SizeAfter(size, len, |text|), len + |text|, rest)
    ensures held + Concat([text] + rest) == held + text + Concat(rest)
  {
    assert ([text] + rest)[1..] == rest;
  }

  /** Size and length after the appends. */
  function After(size: nat, len: nat, texts: seq<string>): (nat, nat)
    decreases |texts|
  {
    if texts == [] then (size, len)
    else After(SizeAfter(size, len, |texts[0]|), len + |texts[0]|, texts[1..])
  }

  predicate NotLongerThanCapacity(size: nat, len: nat, texts: seq<string>)
    decreases |texts|
  {
    texts == [] || (|texts[0]| <= size
                    && NotLongerThanCapacity(SizeAfter(size, len, |texts[0]|), len + |texts[0]|, texts[1..]))
  }

  /** Over every sequence of appends that fit, the length stays below the size, the size stays a power of two times
      the first one, and it is never more than twice the length, once it has grown. */
  lemma {:induction false} AfterBounds(size: nat, len: nat, texts: seq<string>)
    requires len < size && IsCapacity(size) && size <= Max(FILE_LEN, 2 * len) && Fit(size, len, texts)
    ensures var (size', len') := After(size, len, texts);
            len' == len + |Concat(texts)| < size' && IsCapacity(size') && size' <= Max(FILE_LEN, 2 * len')
    decreases |texts|
  {
    if texts != [] {
      var n := |texts[0]|;
      ghost var k: nat :| size == FILE_LEN * Pow2(k);
      assert 2 * size == FILE_LEN * Pow2(k + 1);
      AfterBounds(SizeAfter(size, len, n), len + n, texts[1..]);
    }
  }

  /** Texts no longer than the capacity they meet all fit. */
  lemma {:induction false} CapacitySuffices(size: nat, len: nat, texts: seq<string>)
    requires len < size && NotLongerThanCapacity(size, len, texts)
    ensures Fit(size, len, texts)
    decreases |texts|
  {
    if texts != [] {
      CapacitySuffices(SizeAfter(size, len, |texts[0]|), len + |texts[0]|, texts[1..]);
    }
  }
}
