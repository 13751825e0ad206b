/** Search patterns: a user's term, escaped so that LIKE reads it literally. */
module LikeSearch {
  const ESCAPE := '\\'

  predicate IsSpecial(c: char) { c == '%' || c == '_' || c == ESCAPE }

  // ---------- Building the pattern ----------

  function Replace(s: string, c: char, with: string): string {
    if s == [] then [] else (if s[0] == c then with else [s[0]]) + Replace(s[1..], c, with)
  }

  /** Three replacements, one after the other, the escape character first. */
  function Escaped(search: string): string {
    Replace(Replace(Replace(search, ESCAPE, [ESCAPE, ESCAPE]), '%', [ESCAPE, '%']), '_', [ESCAPE, '_'])
  }

  function IlikePattern(search: string): string { ['%'] + Escaped(search) + ['%'] }

  // ---------- What a pattern matches ----------

  /** LIKE with backslash as its escape. A pattern ending in a lone escape is an error there
      and matches nothing here; EscapesAreComplete shows that no such pattern is built. */
  predicate Like(text: string, pattern: string)
    decreases |pattern| + |text|
  {
    if pattern == [] then text == []
    else if pattern[0] == '%' then Like(text, pattern[1..]) || (text != [] && Like(text[1..], pattern))
    else if text == [] then false
    else if pattern[0] == '_' then Like(text[1..], pattern[1..])
    else if pattern[0] == ESCAPE then
      |pattern| > 1 && text[0] == pattern[1] && Like(text[1..], pattern[2..])
    else text[0] == pattern[0] && Like(text[1..], pattern[1..])
  }

  function Folded(s: string, fold: char -> char): string { seq(|s|, i requires 0 <= i < |s| => fold(s[i])) }

  /** ILIKE lowers both sides and then matches as LIKE does. */
  predicate Ilike(text: string, pattern: string, fold: char -> char) {
    Like(Folded(text, fold), Folded(pattern, fold))
  }

  ghost predicate OccursAt(search: string, text: string, i: int) {
    0 <= i <= |text| && search <= text[i..]
  }

  ghost predicate Occurs(search: string, text: string) {
    exists i :: OccursAt(search, text, i)
  }

  // ---------- Escaping, one character at a time ----------

  function EscapedChar(c: char): string { if IsSpecial(c) then [ESCAPE, c] else [c] }

  function EachEscaped(s: string): string {
    if s == [] then [] else EscapedChar(s[0]) + EachEscaped(s[1..])
  }

  lemma JoinsAssociate(s: string, t: string, u: string)
    ensures s + t + u == s + (t + u)
  {
  }

  lemma {:induction false} ReplaceJoins(s: string, t: string, c: char, with: string)
    ensures Replace(s + t, c, with) == Replace(s, c, with) + Replace(t, c, with)
  {
    if s == [] {
      assert s + t == t;
    } else {
      var head := if s[0] == c then with else [s[0]];
      ReplaceJoins(s[1..], t, c, with);
      assert (s + t)[1..] == s[1..] + t;
      assert Replace(s + t, c, with) == head + Replace(s[1..] + t, c, with);
      JoinsAssociate(head, Replace(s[1..], c, with), Replace(t, c, with));
    }
  }

  lemma EscapedOfOne(c: char)
    ensures Escaped([c]) == EscapedChar(c)
  {
    hide Replace;
    ReplaceOne(c, ESCAPE, [ESCAPE, ESCAPE]);
    if c == ESCAPE {
      ReplaceTwo(ESCAPE, ESCAPE, '%', [ESCAPE, '%']);
      ReplaceTwo(ESCAPE, ESCAPE, '_', [ESCAPE, '_']);
    } else {
      ReplaceOne(c, '%', [ESCAPE, '%']);
      ReplaceOne(c, '_', [ESCAPE, '_']);
      ReplaceTwo(ESCAPE, '%', '_', [ESCAPE, '_']);
    }
  }

  lemma ReplaceOne(x: char, c: char, with: string)
    ensures Replace([x], c, with) == if x == c then with else [x]
  {
    assert Replace([x][1..], c, with) == [];
  }

  lemma ReplaceTwo(x: char, y: char, c: char, with: string)
    requires x != c && y != c
    ensures Replace([x, y], c, with) == [x, y]
  {
    assert [x, y][1..] == [y];
    ReplaceOne(y, c, with);
  }

  /** The three passes together escape each special character once and nothing else: no pass
      touches what an earlier one wrote. */
  lemma {:induction false} EscapedIsEachEscaped(s: string)
    ensures Escaped(s) == EachEscaped(s)
  {
    if s == [] {
    } else {
      var one := Replace([s[0]], ESCAPE, [ESCAPE, ESCAPE]);
      var rest := Replace(s[1..], ESCAPE, [ESCAPE, ESCAPE]);
      assert s == [s[0]] + s[1..];
      ReplaceJoins([s[0]], s[1..], ESCAPE, [ESCAPE, ESCAPE]);
      ReplaceJoins(one, rest, '%', [ESCAPE, '%']);
      ReplaceJoins(Replace(one, '%', [ESCAPE, '%']), Replace(rest, '%', [ESCAPE, '%']), '_', [ESCAPE, '_']);
      assert Escaped(s) == Escaped([s[0]]) + Escaped(s[1..]);
      EscapedOfOne(s[0]);
      EscapedIsEachEscaped(s[1..]);
    }
  }

  // ---------- What the escaped term matches ----------

  /** An escaped term matches itself and nothing else, then leaves the rest to the rest. */
  lemma {:induction false} EscapedMatchesLiterally(s: string, rest: string, text: string)
    ensures Like(text, EachEscaped(s) + rest) <==> s <= text && Like(text[|s|..], rest)
  {
    if s == [] {
      assert EachEscaped(s) + rest == rest;
    } else {
      var tail := EachEscaped(s[1..]) + rest;
      assert EachEscaped(s) + rest == EscapedChar(s[0]) + tail;
      OneEscapedChar(s[0], tail, text);
      if text != [] {
        EscapedMatchesLiterally(s[1..], rest, text[1..]);
        PrefixStep(s, text);
      }
    }
  }

  lemma PrefixStep(s: string, text: string)
    requires s != [] && text != []
    ensures s <= text <==> text[0] == s[0] && s[1..] <= text[1..]
    ensures |s| <= |text| ==> text[1..][|s|-1..] == text[|s|..]
  {
    if text[0] == s[0] && s[1..] <= text[1..] {
      assert s == [s[0]] + s[1..] && text == [text[0]] + text[1..];
    }
  }

  lemma OneEscapedChar(c: char, tail: string, text: string)
    ensures Like(text, EscapedChar(c) + tail) <==> text != [] && text[0] == c && Like(text[1..], tail)
  {
    var pattern := EscapedChar(c) + tail;
    if IsSpecial(c) {
      assert pattern[0] == ESCAPE && pattern[1] == c && pattern[2..] == tail;
    } else {
      assert pattern[0] == c && pattern[1..] == tail;
    }
  }

  lemma {:induction false} PercentSkipsAny(pattern: string, text: string)
    ensures Like(text, ['%'] + pattern) <==> exists i :: 0 <= i <= |text| && Like(text[i..], pattern)
    decreases |text|
  {
    var whole := ['%'] + pattern;
    assert whole[1..] == pattern && text[0..] == text;
    if text == [] {
    } else {
      PercentSkipsAny(pattern, text[1..]);
      if i :| 0 <= i <= |text[1..]| && Like(text[1..][i..], pattern) {
        assert text[1..][i..] == text[i+1..];
      }
      if i :| 0 < i <= |text| && Like(text[i..], pattern) {
        assert text[1..][i-1..] == text[i..];
      }
    }
  }

  lemma {:induction false} PercentMatchesAll(text: string)
    ensures Like(text, ['%'])
  {
    assert ['%'][1..] == [];
    if text == [] {
    } else {
      PercentMatchesAll(text[1..]);
    }
  }

  /** The pattern built from a term matches a text exactly when the term occurs in it as it
      is written, wildcards and escapes included. */
  lemma PatternMatchesLiteralSubstring(search: string, text: string)
    ensures Like(text, IlikePattern(search)) <==> Occurs(search, text)
  {
    EscapedIsEachEscaped(search);
    hide Like, Escaped, EachEscaped;
    var inner := EachEscaped(search) + ['%'];
    assert IlikePattern(search) == ['%'] + inner;
    PercentSkipsAny(inner, text);
    forall i | 0 <= i <= |text| ensures Like(text[i..], inner) <==> OccursAt(search, text, i) {
      EscapedMatchesLiterally(search, ['%'], text[i..]);
      if search <= text[i..] {
        PercentMatchesAll(text[i..][|search|..]);
      }
    }
    if i :| 0 <= i <= |text| && Like(text[i..], inner) {
      assert OccursAt(search, text, i);
    }
    if i :| OccursAt(search, text, i) {
      assert Like(text[i..], inner);
    }
  }

  // ---------- Without regard to case ----------

  /** Lowering leaves the special characters alone and makes no new ones. */
  ghost predicate KeepsSpecials(fold: char -> char) {
    forall c :: (IsSpecial(c) ==> fold(c) == c) && (IsSpecial(fold(c)) ==> fold(c) == c)
  }

  lemma FoldedJoins(s: string, t: string, fold: char -> char)
    ensures Folded(s + t, fold) == Folded(s, fold) + Folded(t, fold)
  {
  }

  lemma {:induction false} FoldingCommutesWithEscaping(s: string, fold: char -> char)
    requires KeepsSpecials(fold)
    ensures Folded(EachEscaped(s), fold) == EachEscaped(Folded(s, fold))
  {
    if s == [] {
    } else {
      FoldingCommutesWithEscaping(s[1..], fold);
      FoldedJoins(EscapedChar(s[0]), EachEscaped(s[1..]), fold);
      FoldedCharIsEscaped(s[0], fold);
      assert Folded(s, fold)[1..] == Folded(s[1..], fold);
    }
  }

  lemma FoldedCharIsEscaped(c: char, fold: char -> char)
    requires KeepsSpecials(fold)
    ensures Folded(EscapedChar(c), fold) == EscapedChar(fold(c))
  {
  }

  /** So a search finds exactly the texts that hold the term, case aside. */
  lemma SearchFindsTheTerm(search: string, text: string, fold: char -> char)
    requires KeepsSpecials(fold)
    ensures Ilike(text, IlikePattern(search), fold) <==> Occurs(Folded(search, fold), Folded(text, fold))
  {
    EscapedIsEachEscaped(search);
    EscapedIsEachEscaped(Folded(search, fold));
    FoldingCommutesWithEscaping(search, fold);
    PatternMatchesLiteralSubstring(Folded(search, fold), Folded(text, fold));
    hide Like, Escaped, EachEscaped;
    assert Folded(IlikePattern(search), fold) == IlikePattern(Folded(search, fold));
  }

  /** What escaping is for: left alone, an underscore stands for any character and a percent
      sign for any text. */
  lemma {:induction false} WildcardsAreWild(text: string)
    ensures Like(text, "%")
    ensures forall c :: Like([c], "_")
    ensures Like(text, seq(|text|, i => '_'))
  {
    if text == [] {
    } else {
      WildcardsAreWild(text[1..]);
      var pattern := seq(|text|, i => '_');
      assert pattern[1..] == seq(|text[1..]|, i => '_');
      assert "%"[1..] == [];
      assert forall c: char :: [c][1..] == [] && "_"[1..] == [];
    }
  }

  // ---------- Patterns are well formed ----------

  ghost predicate Complete(pattern: string) {
    if pattern == [] then true
    else if pattern[0] == ESCAPE then |pattern| > 1 && Complete(pattern[2..])
    else Complete(pattern[1..])
  }

  /** No built pattern ends in a lone escape, which the database would refuse. */
  lemma EscapesAreComplete(search: string)
    ensures Complete(IlikePattern(search))
  {
    EscapedIsEachEscaped(search);
    EachEscapedIsComplete(search);
    assert IlikePattern(search)[1..] == EachEscaped(search) + ['%'];
  }

  lemma {:induction false} EachEscapedIsComplete(s: string)
    ensures Complete(EachEscaped(s) + ['%'])
  {
    if s == [] {
      assert EachEscaped(s) + ['%'] == ['%'];
      assert ['%'][1..] == [];
    } else {
      var tail := EachEscaped(s[1..]) + ['%'];
      var pattern := EachEscaped(s) + ['%'];
      EachEscapedIsComplete(s[1..]);
      assert pattern == EscapedChar(s[0]) + tail;
      if IsSpecial(s[0]) {
        assert pattern[2..] == tail;
      } else {
        assert pattern[1..] == tail;
      }
    }
  }

  /** The order of the passes matters: with the escape character replaced last, a search for
      a percent sign would match a lone backslash. */
  lemma EscapeMustGoFirst()
    ensures var wrong := Replace(Replace("%", '%', [ESCAPE, '%']), ESCAPE, [ESCAPE, ESCAPE]);
            Like([ESCAPE], ['%'] + wrong + ['%']) && !Occurs("%", [ESCAPE])
  {
    ReplaceOne('%', '%', [ESCAPE, '%']);
    ReplaceJoins([ESCAPE], ['%'], ESCAPE, [ESCAPE, ESCAPE]);
    assert [ESCAPE, '%'] == [ESCAPE] + ['%'];
    ReplaceOne(ESCAPE, ESCAPE, [ESCAPE, ESCAPE]);
    ReplaceOne('%', ESCAPE, [ESCAPE, ESCAPE]);
    var wrong := Replace(Replace("%", '%', [ESCAPE, '%']), ESCAPE, [ESCAPE, ESCAPE]);
    assert wrong == [ESCAPE, ESCAPE, '%'];
    var pattern := ['%'] + wrong + ['%'];
    assert pattern[1..] == [ESCAPE, ESCAPE, '%', '%'] && pattern[1..][2..] == ['%', '%'];
    assert ['%', '%'][1..] == ['%'] && ['%'][1..] == [];
    assert [ESCAPE][1..] == [];
    assert Like([], ['%']) && Like([], ['%', '%']);
    assert Like([ESCAPE], pattern[1..]);
    forall i ensures !OccursAt("%", [ESCAPE], i) {
      if 0 <= i <= 1 {
        var piece := [ESCAPE][i..];
        assert piece == [] || piece[0] == ESCAPE;
      }
    }
  }
}
