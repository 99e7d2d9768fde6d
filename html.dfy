/** `escapeHtml`: five `replaceAll` passes, `&` first, so that text can be placed in markup. */
module Html {

  /** `s.replaceAll(c, rep)` for a one-character pattern. */
  function ReplaceAll(s: string, c: char, rep: string): (r: string)
    ensures c !in rep ==> c !in r
    ensures c !in s ==> r == s
  {
    if s == [] then []
    else (if s[0] == c then rep else [s[0]]) + ReplaceAll(s[1..], c, rep)
  }

  /** The replacement passes of `escapeHtml`, in source order. */
  const Patterns: seq<char> := ['&', '<', '>', '"', '\'']

  function Replacement(k: nat): string
    requires k < |Patterns|
  {
    ["&amp;", "&lt;", "&gt;", "&quot;", "&#039;"][k]
  }

  /** The text after running the passes from `k` on. */
  function Passes(s: string, k: nat): string
    requires k <= |Patterns|
    decreases |Patterns| - k
  {
    if k == |Patterns| then s else Passes(ReplaceAll(s, Patterns[k], Replacement(k)), k + 1)
  }

  /** `escapeHtml(s)` as written: the chain of replacements, `&` first. It equals escaping
      each character once, so no entity made by a later pass is escaped again. */
  function EscapeHtml(s: string): (r: string)
    ensures r == Escaped(s)
  {
    ChainIsSinglePass(s);
    Passes(s, 0)
  }

  /** The entity one character becomes. */
  function Entity(c: char): string
  {
    match c
    case '&' => "&amp;"
    case '<' => "&lt;"
    case '>' => "&gt;"
    case '"' => "&quot;"
    case '\'' => "&#039;"
    case _ => [c]
  }

  /** Reference definition: every character escaped once, in a single pass. */
  function Escaped(s: string): (r: string)
    ensures '<' !in r && '>' !in r && '"' !in r && '\'' !in r
  {
    if s == [] then [] else Entity(s[0]) + Escaped(s[1..])
  }

  /** `t` has one of the five entities at position `i`. */
  predicate EntityAt(t: string, i: nat)
    requires i <= |t|
  {
    var u := t[i..];
    "&amp;" <= u || "&lt;" <= u || "&gt;" <= u || "&quot;" <= u || "&#039;" <= u
  }

  /** The inverse of `Escaped`: the five entities decoded, everything else kept. */
  function Unescape(t: string): string
    decreases |t|
  {
    if t == [] then []
    else if "&amp;" <= t then "&" + Unescape(t[5..])
    else if "&lt;" <= t then "<" + Unescape(t[4..])
    else if "&gt;" <= t then ">" + Unescape(t[4..])
    else if "&quot;" <= t then "\"" + Unescape(t[6..])
    else if "&#039;" <= t then "'" + Unescape(t[6..])
    else [t[0]] + Unescape(t[1..])
  }

  lemma {:induction false} ReplaceAllConcat(a: string, b: string, c: char, rep: string)
    ensures ReplaceAll(a + b, c, rep) == ReplaceAll(a, c, rep) + ReplaceAll(b, c, rep)
  {
    if a != [] {
      var x, t := a[0], a[1..];
      var h := if x == c then rep else [x];
      assert a == [x] + t;
      assert a + b == [x] + (t + b);
      ReplaceAllCons(x, t + b, c, rep);
      ReplaceAllConcat(t, b, c, rep);
      ReplaceAllCons(x, t, c, rep);
      AppendAssoc(h, ReplaceAll(t, c, rep), ReplaceAll(b, c, rep));
    } else {
      assert a + b == b;
    }
  }

  lemma {:induction false} ReplaceAllCons(x: char, t: string, c: char, rep: string)
    ensures ReplaceAll([x] + t, c, rep) == (if x == c then rep else [x]) + ReplaceAll(t, c, rep)
  {
    assert ([x] + t)[0] == x && ([x] + t)[1..] == t;
  }

  lemma AppendAssoc(p: string, q: string, u: string)
    ensures (p + q) + u == p + (q + u)
  {
    assert |(p + q) + u| == |p + (q + u)|;
  }

  lemma {:induction false} PassesConcat(a: string, b: string, k: nat)
    requires k <= |Patterns|
    ensures Passes(a + b, k) == Passes(a, k) + Passes(b, k)
    decreases |Patterns| - k
  {
    if k < |Patterns| {
      ReplaceAllConcat(a, b, Patterns[k], Replacement(k));
      PassesConcat(ReplaceAll(a, Patterns[k], Replacement(k)), ReplaceAll(b, Patterns[k], Replacement(k)), k + 1);
    }
  }

  /** Passes whose pattern does not occur in `s` leave it as it is. */
  lemma {:induction false} PassesSkip(s: string, k: nat, m: nat)
    requires k <= m <= |Patterns|
    requires forall j :: k <= j < m ==> Patterns[j] !in s
    ensures Passes(s, k) == Passes(s, m)
    decreases m - k
  {
    if k < m {
      PassesSkip(s, k + 1, m);
    }
  }

  /** No entity holds a character that a later pass replaces, so none is escaped twice. */
  lemma LaterPatternsAbsent(k: nat)
    requires k < |Patterns|
    ensures forall j :: k < j < |Patterns| ==> Patterns[j] !in Replacement(k)
  {
    if k == 0 {
      assert Replacement(0) == "&amp;";
    } else if k == 1 {
      assert Replacement(1) == "&lt;";
    } else if k == 2 {
      assert Replacement(2) == "&gt;";
    } else if k == 3 {
      assert Replacement(3) == "&quot;";
    }
  }

  /** The chain turns one character into its entity. */
  lemma {:induction false} ChainChar(c: char)
    ensures Passes([c], 0) == Entity(c)
  {
    if c == '&' {
      ChainPattern(0);
    } else if c == '<' {
      ChainPattern(1);
    } else if c == '>' {
      ChainPattern(2);
    } else if c == '"' {
      ChainPattern(3);
    } else if c == '\'' {
      ChainPattern(4);
    } else {
      ChainOther(c);
    }
  }

  /** A character no pass looks for goes through the chain unchanged. */
  lemma {:induction false} ChainOther(c: char)
    requires c !in Patterns
    ensures Passes([c], 0) == [c]
  {
    PassesSkip([c], 0, |Patterns|);
  }

  /** A pattern character is replaced by its own pass and left alone by the others. */
  lemma {:induction false} ChainPattern(j: nat)
    requires j < |Patterns|
    ensures Passes([Patterns[j]], 0) == Replacement(j)
  {
    var c := Patterns[j];
    PassesSkip([c], 0, j);
    var r := Replacement(j);
    assert ReplaceAll([c], c, r) == r;
    LaterPatternsAbsent(j);
    PassesSkip(r, j + 1, |Patterns|);
  }

  /** Replacing `&` first means no entity made by a later pass is escaped again:
      the chain equals escaping each character once. */
  lemma {:induction false} ChainIsSinglePass(s: string)
    ensures Passes(s, 0) == Escaped(s)
  {
    if s != [] {
      assert s == [s[0]] + s[1..];
      PassesConcat([s[0]], s[1..], 0);
      ChainChar(s[0]);
      ChainIsSinglePass(s[1..]);
    }
  }

  lemma EntityAtShift(a: string, b: string, j: nat)
    requires j <= |b| && EntityAt(b, j)
    ensures EntityAt(a + b, |a| + j)
  {
    assert (a + b)[|a| + j..] == b[j..];
  }

  /** An `&` inside one character's escape is the start of that entity. */
  lemma EntityAmpersand(c: char, rest: string, i: nat)
    requires i < |Entity(c)| && (Entity(c) + rest)[i] == '&'
    ensures EntityAt(Entity(c) + rest, i)
  {
    var t := Entity(c) + rest;
    assert t[..|Entity(c)|] == Entity(c);
    assert i == 0;
    assert t[0..] == t;
  }

  /** Every `&` in escaped text begins one of the five entities. */
  lemma {:induction false} EscapedAmpersands(s: string)
    ensures forall i :: 0 <= i < |Escaped(s)| && Escaped(s)[i] == '&' ==> EntityAt(Escaped(s), i)
  {
    if s != [] {
      var e, rest := Entity(s[0]), Escaped(s[1..]);
      EscapedAmpersands(s[1..]);
      assert Escaped(s) == e + rest;
      forall i | 0 <= i < |e + rest| && (e + rest)[i] == '&'
        ensures EntityAt(e + rest, i)
      {
        if i < |e| {
          EntityAmpersand(s[0], rest, i);
        } else {
          EntityAtShift(e, rest, i - |e|);
        }
      }
    }
  }

  /** Decoding reads one character's entity back in front of whatever follows it. */
  lemma UnescapeEntity(c: char, rest: string)
    ensures Unescape(Entity(c) + rest) == [c] + Unescape(rest)
  {
    if c == '&' || c == '<' || c == '>' {
      UnescapeShortEntity(c, rest);
    } else {
      UnescapeOtherChar(c, rest);
    }
  }

  lemma UnescapeShortEntity(c: char, rest: string)
    requires c == '&' || c == '<' || c == '>'
    ensures Unescape(Entity(c) + rest) == [c] + Unescape(rest)
  {
    var e := Entity(c);
    var t := e + rest;
    assert t[|e|..] == rest;
    assert t[..|e|] == e;
    if c == '&' {
      assert "&amp;" <= t;
    } else if c == '<' {
      assert t[1] == 'l';
    } else {
      assert t[1] == 'g';
    }
  }

  lemma UnescapeOtherChar(c: char, rest: string)
    requires c != '&' && c != '<' && c != '>'
    ensures Unescape(Entity(c) + rest) == [c] + Unescape(rest)
  {
    var e := Entity(c);
    var t := e + rest;
    assert t[|e|..] == rest;
    assert t[..|e|] == e;
    if c == '"' {
      assert t[1] == 'q';
    } else if c == '\'' {
      assert t[1] == '#';
    } else {
      assert t[0] == c;
    }
  }

  /** Decoding the escaped text gives back the original. */
  lemma {:induction false} UnescapeEscaped(s: string)
    ensures Unescape(Escaped(s)) == s
  {
    if s != [] {
      UnescapeEscaped(s[1..]);
      UnescapeEntity(s[0], Escaped(s[1..]));
      assert s == [s[0]] + s[1..];
    }
  }

  /** `escapeHtml` output holds no raw `<`, `>`, `"` or `'`, each `&` starts an entity,
      and decoding the entities restores the input. */
  lemma EscapeHtmlSafe(s: string)
    ensures var r := EscapeHtml(s);
      && '<' !in r && '>' !in r && '"' !in r && '\'' !in r
      && (forall i :: 0 <= i < |r| && r[i] == '&' ==> EntityAt(r, i))
      && Unescape(r) == s
  {
    EscapedAmpersands(s);
    UnescapeEscaped(s);
  }
}
