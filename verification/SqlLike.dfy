/** The LIKE operator of SQL, for texts without letters: '%' stands for any text, '_' for any one character. */
module SqlLike {

  predicate Like(text: string, pattern: string)
    decreases |pattern|
  {
    if pattern == "" then text == ""
    else if pattern[0] == '%' then exists k :: 0 <= k <= |text| && Like(text[k..], pattern[1..])
    else text != "" && (pattern[0] == '_' || pattern[0] == text[0]) && Like(text[1..], pattern[1..])
  }

  predicate Literal(pattern: string) {
    forall i :: 0 <= i < |pattern| ==> pattern[i] != '%' && pattern[i] != '_'
  }

  /** A literal text followed by '%' matches exactly the texts it begins. */
  lemma {:induction false} LikePrefix(text: string, w: string)
    requires Literal(w)
    ensures Like(text, w + "%") <==> w <= text
  {
    var pattern := w + "%";
    if w == "" {
      assert pattern[1..] == "";
      assert Like(text[|text|..], "");
    } else {
      assert pattern[1..] == w[1..] + "%";
      if text != "" {
        LikePrefix(text[1..], w[1..]);
        assert w <= text <==> w[0] == text[0] && w[1..] <= text[1..] by {
          if w[0] == text[0] && w[1..] <= text[1..] {
            assert text == [w[0]] + text[1..] && w == [w[0]] + w[1..];
          }
        }
      }
    }
  }
}
