/** Reading the name server's configuration of zones: words, quoted texts and punctuation, and the statements they
    make. */
module ZoneConfig {
  import opened Results

  // ---- Tokens --------------------------------------------------------------------

  datatype Token = Word(text: string) | Quoted(text: string) | Open | Close | Semi | Bad

  predicate IsBlank(c: char) { c == ' ' || c == '\t' || c == '\n' }

  predicate EndsWord(c: char) { IsBlank(c) || c == '{' || c == '}' || c == ';' || c == '"' }

  predicate IsWord(w: string) { w != "" && forall i :: 0 <= i < |w| ==> !EndsWord(w[i]) }

  predicate NoQuote(t: string) { forall i :: 0 <= i < |t| ==> t[i] != '"' }

  /** The length of the word that begins the text. */
  function WordLength(t: string): (n: nat)
    ensures n <= |t|
  {
    if t == "" || EndsWord(t[0]) then 0 else 1 + WordLength(t[1..])
  }

  /** The place of the first quote, or the end of the text. */
  function QuoteAt(t: string): (n: nat)
    ensures n <= |t|
  {
    if t == "" || t[0] == '"' then 0 else 1 + QuoteAt(t[1..])
  }

  function Tokens(t: string): seq<Token>
    decreases |t|
  {
    if t == "" then []
    else if IsBlank(t[0]) then Tokens(t[1..])
    else if t[0] == '{' then [Open] + Tokens(t[1..])
    else if t[0] == '}' then [Close] + Tokens(t[1..])
    else if t[0] == ';' then [Semi] + Tokens(t[1..])
    else if t[0] == '"' then
      var n := QuoteAt(t[1..]);
      if n == |t| - 1 then [Bad] else [Quoted(t[1..n + 1])] + Tokens(t[n + 2..])
    else
      var n := WordLength(t);
      [Word(t[..n])] + Tokens(t[n..])
  }

  // ---- Statements ------------------------------------------------------------------

  /** A zone statement: its name, the value of its type clause, its masters and the name of its file. */
  datatype Stanza = Stanza(zone: string, kind: Option<string>, masters: seq<string>, file: string)

  /** The clauses of a zone statement and its end. */
  function Clauses(ts: seq<Token>, s: Stanza): (r: Option<(Stanza, seq<Token>)>)
    ensures r.Some? ==> |r.value.1| < |ts|
    decreases |ts|
  {
    if |ts| >= 2 && ts[0] == Close && ts[1] == Semi then Some((s, ts[2..]))
    else if |ts| >= 3 && ts[0] == Word("type") && ts[1].Word? && ts[2] == Semi then
      Clauses(ts[3..], s.(kind := Some(ts[1].text)))
    else if |ts| >= 3 && ts[0] == Word("file") && ts[1].Quoted? && ts[2] == Semi then
      Clauses(ts[3..], s.(file := ts[1].text))
    else if |ts| >= 6 && ts[0] == Word("masters") && ts[1] == Open && ts[2].Word? && ts[3] == Semi
            && ts[4] == Close && ts[5] == Semi then
      Clauses(ts[6..], s.(masters := s.masters + [ts[2].text]))
    else None
  }

  function Statements(ts: seq<Token>): Option<seq<Stanza>>
    decreases |ts|
  {
    if ts == [] then Some([])
    else if |ts| >= 3 && ts[0] == Word("zone") && ts[1].Quoted? && ts[2] == Open then
      match Clauses(ts[3..], Stanza(ts[1].text, None, [], ""))
      case None => None
      case Some((s, rest)) =>
        match Statements(rest)
        case None => None
        case Some(more) => Some([s] + more)
    else None
  }

  /** The zone statements of a configuration, or None when it is not made of such statements. */
  function Read(text: string): Option<seq<Stanza>> { Statements(Tokens(text)) }

  // ---- Reading one token -------------------------------------------------------------

  lemma BlankFirst(c: char, t: string)
    requires IsBlank(c)
    ensures Tokens([c] + t) == Tokens(t)
  {
    assert ([c] + t)[1..] == t;
  }

  lemma PunctuationFirst(t: string)
    ensures Tokens("{" + t) == [Open] + Tokens(t) && Tokens("}" + t) == [Close] + Tokens(t)
    ensures Tokens(";" + t) == [Semi] + Tokens(t)
  {
    assert ("{" + t)[1..] == t && ("}" + t)[1..] == t && (";" + t)[1..] == t;
  }

  lemma {:induction false} WordLengthIs(w: string, t: string)
    requires (forall i :: 0 <= i < |w| ==> !EndsWord(w[i])) && t != "" && EndsWord(t[0])
    ensures WordLength(w + t) == |w|
  {
    if w == "" {
      assert w + t == t;
    } else {
      assert (w + t)[1..] == w[1..] + t;
      WordLengthIs(w[1..], t);
    }
  }

  lemma WordFirst(w: string, t: string)
    requires IsWord(w) && t != "" && EndsWord(t[0])
    ensures Tokens(w + t) == [Word(w)] + Tokens(t)
  {
    WordLengthIs(w, t);
    assert (w + t)[0] == w[0] && (w + t)[..|w|] == w && (w + t)[|w|..] == t;
    hide WordLength;
  }

  lemma {:induction false} QuoteAtIs(q: string, t: string)
    requires NoQuote(q)
    ensures QuoteAt(q + "\"" + t) == |q|
  {
    var all := q + "\"" + t;
    if q != "" {
      assert all[1..] == q[1..] + "\"" + t;
      QuoteAtIs(q[1..], t);
    }
  }

  lemma QuotedFirst(q: string, t: string)
    requires NoQuote(q)
    ensures Tokens("\"" + q + "\"" + t) == [Quoted(q)] + Tokens(t)
  {
    var all := "\"" + q + "\"" + t;
    QuoteAtIs(q, t);
    assert all[0] == '"' && all[1..] == q + "\"" + t;
    assert all[1..|q| + 1] == q && all[|q| + 2..] == t;
    hide QuoteAt;
  }

  // ---- Reading a line ------------------------------------------------------------------

  lemma Tabs(t: string)
    ensures Tokens("\t\t" + t) == Tokens(t) && Tokens("\t\t\t" + t) == Tokens(t)
  {
    hide Tokens;
    assert "\t\t" + t == "\t" + ("\t" + t) && "\t\t\t" + t == "\t" + ("\t\t" + t);
    BlankFirst('\t', t);
    BlankFirst('\t', "\t" + t);
    BlankFirst('\t', "\t\t" + t);
  }

  /** A word and a blank. */
  lemma KeyFirst(w: string, t: string)
    requires IsWord(w)
    ensures Tokens(w + " " + t) == [Word(w)] + Tokens(t)
  {
    hide Tokens, IsWord;
    assert w + " " + t == w + (" " + t);
    WordFirst(w, " " + t);
    BlankFirst(' ', t);
  }

  lemma OpenFirst(t: string)
    ensures Tokens("{ " + t) == [Open] + Tokens(t) && Tokens("{\n" + t) == [Open] + Tokens(t)
  {
    hide Tokens;
    assert "{ " + t == "{" + (" " + t) && "{\n" + t == "{" + ("\n" + t);
    PunctuationFirst(" " + t);
    PunctuationFirst("\n" + t);
    BlankFirst(' ', t);
    BlankFirst('\n', t);
  }

  lemma SemiFirst(t: string)
    ensures Tokens("; " + t) == [Semi] + Tokens(t) && Tokens(";\n" + t) == [Semi] + Tokens(t)
    ensures Tokens("};\n" + t) == [Close, Semi] + Tokens(t)
  {
    hide Tokens;
    assert "; " + t == ";" + (" " + t) && ";\n" + t == ";" + ("\n" + t) && "};\n" + t == "}" + (";\n" + t);
    PunctuationFirst(" " + t);
    PunctuationFirst("\n" + t);
    PunctuationFirst(";\n" + t);
    BlankFirst(' ', t);
    BlankFirst('\n', t);
  }

  lemma TypeLine(v: string, t: string)
    requires IsWord(v)
    ensures Tokens("\t\t\ttype " + v + ";\n" + t) == [Word("type"), Word(v), Semi] + Tokens(t)
  {
    assert IsWord("type");
    hide Tokens, IsWord;
    var t1 := v + (";\n" + t);
    assert "\t\t\ttype " + v + ";\n" + t == "\t\t\t" + ("type" + " " + t1);
    Tabs("type" + " " + t1);
    KeyFirst("type", t1);
    WordFirst(v, ";\n" + t);
    SemiFirst(t);
  }

  lemma HeadLine(name: string, t: string)
    requires NoQuote(name)
    ensures Tokens("zone \"" + name + "\" {\n" + t) == [Word("zone"), Quoted(name), Open] + Tokens(t)
  {
    assert IsWord("zone");
    hide Tokens, NoQuote, IsWord;
    var t1 := "{\n" + t;
    HeadText(name, t);
    KeyFirst("zone", "\"" + name + "\"" + (" " + t1));
    QuotedFirst(name, " " + t1);
    BlankFirst(' ', t1);
    OpenFirst(t);
  }

  lemma HeadText(name: string, t: string)
    ensures "zone \"" + name + "\" {\n" + t == "zone" + " " + ("\"" + name + "\"" + (" " + ("{\n" + t)))
  {
    var t1 := "\"" + (" " + ("{\n" + t));
    assert "\" {\n" + t == t1;
    assert "\"" + name + "\"" + (" " + ("{\n" + t)) == "\"" + (name + t1);
    assert "zone \"" + (name + t1) == "zone" + " " + ("\"" + (name + t1));
  }

  lemma MastersLine(m: string, t: string)
    requires IsWord(m)
    ensures Tokens("\t\t\tmasters { " + m + "; };\n" + t)
            == [Word("masters"), Open, Word(m), Semi, Close, Semi] + Tokens(t)
  {
    hide Tokens, IsWord;
    var t2 := m + ("; " + ("};\n" + t));
    MastersText(m, t);
    MastersStart(t2);
    MastersEnd(m, t);
  }

  lemma MastersStart(t: string)
    ensures Tokens("\t\t\t" + ("masters" + " " + ("{ " + t))) == [Word("masters"), Open] + Tokens(t)
  {
    assert IsWord("masters");
    hide Tokens, IsWord;
    Tabs("masters" + " " + ("{ " + t));
    KeyFirst("masters", "{ " + t);
    OpenFirst(t);
  }

  lemma MastersEnd(m: string, t: string)
    requires IsWord(m)
    ensures Tokens(m + ("; " + ("};\n" + t))) == [Word(m), Semi, Close, Semi] + Tokens(t)
  {
    hide Tokens, IsWord;
    WordFirst(m, "; " + ("};\n" + t));
    SemiFirst("};\n" + t);
    SemiFirst(t);
  }

  lemma MastersText(m: string, t: string)
    ensures "\t\t\tmasters { " + m + "; };\n" + t
            == "\t\t\t" + ("masters" + " " + ("{ " + (m + ("; " + ("};\n" + t)))))
  {
    var t1 := m + ("; };\n" + t);
    assert "; };\n" + t == "; " + ("};\n" + t);
    assert "\t\t\tmasters { " + t1 == "\t\t\t" + ("masters" + " " + ("{ " + t1));
    assert "\t\t\tmasters { " + m + "; };\n" + t == "\t\t\tmasters { " + t1;
  }

  lemma FileLine(file: string, t: string)
    requires NoQuote(file)
    ensures Tokens("\t\t\tfile \"" + file + "\";\n\t\t};\n" + t)
            == [Word("file"), Quoted(file), Semi, Close, Semi] + Tokens(t)
  {
    assert IsWord("file");
    hide Tokens, NoQuote, IsWord;
    var t1 := "\t\t" + ("};\n" + t);
    var t2 := "\"" + file + "\"" + (";\n" + t1);
    FileText(file, t);
    Tabs("file" + " " + t2);
    KeyFirst("file", t2);
    QuotedFirst(file, ";\n" + t1);
    SemiFirst(t1);
    Tabs("};\n" + t);
    SemiFirst(t);
  }

  lemma FileText(file: string, t: string)
    ensures "\t\t\tfile \"" + file + "\";\n\t\t};\n" + t
            == "\t\t\t" + ("file" + " " + ("\"" + file + "\"" + (";\n" + ("\t\t" + ("};\n" + t)))))
  {
    var t1 := ";\n" + ("\t\t" + ("};\n" + t));
    assert "\";\n\t\t};\n" + t == "\"" + t1;
    var t2 := file + ("\"" + t1);
    assert "\"" + file + "\"" + t1 == "\"" + t2;
    assert "\t\t\tfile \"" + t2 == "\t\t\t" + ("file" + " " + ("\"" + t2));
    assert "\t\t\tfile \"" + file + "\";\n\t\t};\n" + t == "\t\t\tfile \"" + t2;
  }

  // ---- Reading a statement ---------------------------------------------------------------

  /** The tokens of a zone statement, with a type clause or none, and a masters clause for a slave. */
  function StanzaTokens(s: Stanza): seq<Token> {
    [Word("zone"), Quoted(s.zone), Open]
    + (if s.kind.Some? then [Word("type"), Word(s.kind.value), Semi] else [])
    + (if |s.masters| == 1 then [Word("masters"), Open, Word(s.masters[0]), Semi, Close, Semi] else [])
    + [Word("file"), Quoted(s.file), Semi, Close, Semi]
  }

  lemma FileClause(s: Stanza, file: string, ts: seq<Token>)
    ensures Clauses([Word("file"), Quoted(file), Semi, Close, Semi] + ts, s) == Some((s.(file := file), ts))
  {
    var all := [Word("file"), Quoted(file), Semi, Close, Semi] + ts;
    assert all[3..] == [Close, Semi] + ts && all[3..][2..] == ts;
  }

  lemma MastersClause(s: Stanza, m: string, ts: seq<Token>)
    ensures Clauses([Word("masters"), Open, Word(m), Semi, Close, Semi] + ts, s)
            == Clauses(ts, s.(masters := s.masters + [m]))
  {
    var all := [Word("masters"), Open, Word(m), Semi, Close, Semi] + ts;
    assert all[6..] == ts && |"masters"| != |"type"| && |"masters"| != |"file"|;
    assert all[0] != Word("type") && all[0] != Word("file") && all[0] != Close;
    assert Clauses(all, s) == Clauses(all[6..], s.(masters := s.masters + [m]));
  }

  lemma TypeClause(s: Stanza, kind: string, ts: seq<Token>)
    ensures Clauses([Word("type"), Word(kind), Semi] + ts, s) == Clauses(ts, s.(kind := Some(kind)))
  {
    var all := [Word("type"), Word(kind), Semi] + ts;
    assert all[3..] == ts;
  }

  lemma ZoneFirst(name: string, ts: seq<Token>)
    ensures Statements([Word("zone"), Quoted(name), Open] + ts)
            == match Clauses(ts, Stanza(name, None, [], ""))
               case None => None
               case Some((s, rest)) => (match Statements(rest) case None => None case Some(more) => Some([s] + more))
  {
    var all := [Word("zone"), Quoted(name), Open] + ts;
    assert all[3..] == ts;
    hide Clauses;
  }

  /** They are read as that statement. */
  lemma StanzaFirst(s: Stanza, ts: seq<Token>)
    requires |s.masters| <= 1
    ensures Statements(StanzaTokens(s) + ts)
            == match Statements(ts) case None => None case Some(more) => Some([s] + more)
  {
    hide Clauses, Statements;
    var file := [Word("file"), Quoted(s.file), Semi, Close, Semi];
    var masters := if |s.masters| == 1 then [Word("masters"), Open, Word(s.masters[0]), Semi, Close, Semi] else [];
    var kind := if s.kind.Some? then [Word("type"), Word(s.kind.value), Semi] else [];
    var s0 := Stanza(s.zone, None, [], "");
    var s1 := s0.(kind := s.kind);
    assert StanzaTokens(s) + ts == [Word("zone"), Quoted(s.zone), Open] + (kind + (masters + (file + ts)));
    ZoneFirst(s.zone, kind + (masters + (file + ts)));
    assert Clauses(kind + (masters + (file + ts)), s0) == Clauses(masters + (file + ts), s1) by {
      if s.kind.Some? {
        TypeClause(s0, s.kind.value, masters + (file + ts));
      } else {
        NothingFirst(masters + (file + ts));
      }
    }
    assert Clauses(masters + (file + ts), s1) == Clauses(file + ts, s1.(masters := s.masters)) by {
      if |s.masters| == 1 {
        MastersClause(s1, s.masters[0], file + ts);
        assert [] + [s.masters[0]] == s.masters;
      } else {
        NothingFirst(file + ts);
      }
    }
    FileClause(s1.(masters := s.masters), s.file, ts);
  }

  lemma NothingFirst<T>(ts: seq<T>)
    ensures [] + ts == ts
  {
  }
}
