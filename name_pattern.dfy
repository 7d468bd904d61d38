/**
 * The name search: the user's words become a PostgreSQL regular expression
 * by turning every space into ".*", and the node name is searched with the
 * case-insensitive operator `~*`.
 */
module NamePatterns {
  import opened Text

  /** `name.gsub(" ", ".*")`. */
  function NamePattern(name: string): (r: string)
    ensures |r| == |name| + Count(name, ' ')
  {
    if name == [] then []
    else (if name[0] == ' ' then ".*" else [name[0]]) + NamePattern(name[1..])
  }

  /** The characters with a meaning in a PostgreSQL regular expression. */
  predicate IsRegexMeta(c: char)
  {
    c in ".*+?[](){}|\\^$"
  }

  /** A name in which every character stands for itself. */
  predicate IsPlainName(name: string)
  {
    forall i | 0 <= i < |name| :: !IsRegexMeta(name[i])
  }

  /**
   * A match of the regular expression p at the start of s, of the fragment
   * of the regex language the name rewrite produces: ".*" matches any run of
   * characters, "." any one character and every other character itself.
   * The match need not reach the end of s.
   */
  predicate MatchHere(p: string, s: string)
    decreases |p|
  {
    if p == [] then true
    else if |p| >= 2 && p[0] == '.' && p[1] == '*' then
      exists k | 0 <= k <= |s| :: MatchHere(p[2..], s[k..])
    else s != [] && (p[0] == '.' || s[0] == p[0]) && MatchHere(p[1..], s[1..])
  }

  /** `s ~ p`: the expression matches somewhere in s. */
  predicate Search(p: string, s: string)
  {
    exists i | 0 <= i <= |s| :: MatchHere(p, s[i..])
  }

  /** `s ~* p`: the search with case ignored on both sides. */
  predicate ISearch(p: string, s: string)
  {
    Search(Lower(p), Lower(s))
  }

  /** The condition `name ~* ?` with the rewritten name. */
  predicate NameMatches(name: string, text: string)
  {
    ISearch(NamePattern(name), text)
  }

  // ---------------------------------------------------------------------------
  // The reference: the words of the name occur in order

  /** The first token starts s, and each further token starts after the previous one ends. */
  predicate TokensFrom(tokens: seq<string>, s: string)
    decreases |tokens|
  {
    if tokens == [] then true
    else if |tokens| == 1 then StartsWith(s, tokens[0])
    else
      StartsWith(s, tokens[0]) && exists k | |tokens[0]| <= k <= |s| :: TokensFrom(tokens[1..], s[k..])
  }

  /** The tokens occur in s, in order and without overlapping. */
  predicate TokensInOrder(tokens: seq<string>, s: string)
  {
    exists i | 0 <= i <= |s| :: TokensFrom(tokens, s[i..])
  }

  // ---------------------------------------------------------------------------
  // The rewrite

  lemma {:induction false} NamePatternAppend(a: string, b: string)
    ensures NamePattern(a + b) == NamePattern(a) + NamePattern(b)
    decreases |a|
  {
    if a == [] {
      assert a + b == b;
    } else {
      assert (a + b)[1..] == a[1..] + b;
      NamePatternAppend(a[1..], b);
    }
  }

  /** Text without spaces is left as it is. */
  lemma {:induction false} NamePatternPlain(w: string)
    requires ' ' !in w
    ensures NamePattern(w) == w
    decreases |w|
  {
    if w != [] {
      assert w[1..] == w[..][1..];
      assert ' ' !in w[1..] by {
        NotInSlice(w, ' ', 1, |w|);
      }
      NamePatternPlain(w[1..]);
    }
  }

  /** Words joined by spaces become the same words joined by ".*". */
  lemma NamePatternWords(w: string, rest: string)
    requires ' ' !in w
    ensures NamePattern(w + [' '] + rest) == w + ".*" + NamePattern(rest)
  {
    NamePatternAppend(w + [' '], rest);
    NamePatternAppend(w, [' ']);
    NamePatternPlain(w);
  }

  lemma {:induction false} LowerNamePattern(name: string)
    ensures Lower(NamePattern(name)) == NamePattern(Lower(name))
    decreases |name|
  {
    if name != [] {
      LowerNamePattern(name[1..]);
      var h := if name[0] == ' ' then ".*" else [name[0]];
      LowerAppend(h, NamePattern(name[1..]));
      assert Lower(name)[1..] == Lower(name[1..]);
    }
  }

  lemma LowerAppend(a: string, b: string)
    ensures Lower(a + b) == Lower(a) + Lower(b)
  {
    assert forall i | 0 <= i < |a + b| :: Lower(a + b)[i] == (Lower(a) + Lower(b))[i];
  }

  /** Lower-casing makes no "." and no space out of another character. */
  lemma LowerKeeps(name: string, c: char)
    requires c !in name && (c == '.' || c == ' ')
    ensures c !in Lower(name)
  {
    forall i | 0 <= i < |name| ensures Lower(name)[i] != c {
      assert name[i] != c;
    }
  }

  // ---------------------------------------------------------------------------
  // The matcher on the rewritten pattern

  /** A literal piece of the pattern must occur at the start. */
  lemma {:induction false} MatchLiteral(w: string, q: string, s: string)
    requires '.' !in w
    ensures MatchHere(w + q, s) <==> StartsWith(s, w) && MatchHere(q, s[|w|..])
    decreases |w|
  {
    if w == [] {
      assert w + q == q && s[0..] == s;
    } else {
      var p := w + q;
      assert p[0] == w[0] != '.' && p[1..] == w[1..] + q;
      assert '.' !in w[1..] by {
        NotInSlice(w, '.', 1, |w|);
      }
      if s != [] {
        MatchLiteral(w[1..], q, s[1..]);
        if |w| <= |s| {
          assert s[1..][|w| - 1..] == s[|w|..];
          assert StartsWith(s, w) <==> s[0] == w[0] && StartsWith(s[1..], w[1..]);
        }
      }
    }
  }

  /** A ".*" lets the rest of the pattern start anywhere later. */
  lemma MatchStar(q: string, s: string)
    ensures MatchHere(".*" + q, s) <==> exists k | 0 <= k <= |s| :: MatchHere(q, s[k..])
  {
    var p := ".*" + q;
    assert p[0] == '.' && p[1] == '*' && p[2..] == q;
  }

  /** The pattern of words joined by spaces matches where the words occur in order. */
  lemma {:induction false} MatchWords(tokens: seq<string>, s: string)
    requires |tokens| >= 1
    requires forall j | 0 <= j < |tokens| :: ' ' !in tokens[j] && '.' !in tokens[j]
    ensures MatchHere(NamePattern(Join(tokens, ' ')), s) <==> TokensFrom(tokens, s)
    decreases |tokens|
  {
    var w := tokens[0];
    if |tokens| == 1 {
      NamePatternPlain(w);
      MatchLiteral(w, [], s);
      assert w + [] == w;
    } else {
      var rest := tokens[1..];
      var p := NamePattern(Join(rest, ' '));
      NamePatternWords(w, Join(rest, ' '));
      assert w + ".*" + p == w + (".*" + p);
      MatchLiteral(w, ".*" + p, s);
      if StartsWith(s, w) {
        var s' := s[|w|..];
        MatchStar(p, s');
        forall k | 0 <= k <= |s'|
          ensures MatchHere(p, s'[k..]) <==> TokensFrom(rest, s[|w| + k..])
        {
          assert s'[k..] == s[|w| + k..];
          MatchWords(rest, s[|w| + k..]);
        }
        if TokensFrom(tokens, s) {
          var k :| |w| <= k <= |s| && TokensFrom(rest, s[k..]);
          assert s'[k - |w|..] == s[k..];
        }
      }
    }
  }

  /** A character missing from s is missing from every field of its split. */
  lemma SplitAllChars(s: string, sep: char, c: char)
    requires c !in s
    ensures forall j | 0 <= j < |SplitAll(s, sep)| :: c !in SplitAll(s, sep)[j]
  {
    var f := SplitAll(s, sep);
    JoinSplitAll(s, sep);
    forall j | 0 <= j < |f| ensures c !in f[j] {
      JoinFieldChars(f, sep, c, j);
    }
  }

  /**
   * For a name without regex metacharacters, a node name matches exactly when
   * the space-separated words of the input occur in it in order, case ignored.
   */
  lemma NameMatchesWords(name: string, text: string)
    requires IsPlainName(name)
    ensures NameMatches(name, text) <==> TokensInOrder(SplitAll(Lower(name), ' '), Lower(text))
  {
    var l := Lower(name);
    var tokens := SplitAll(l, ' ');
    LowerNamePattern(name);
    assert '.' !in name by {
      forall i | 0 <= i < |name| ensures name[i] != '.' {
        assert !IsRegexMeta(name[i]);
      }
    }
    LowerKeeps(name, '.');
    SplitAllChars(l, ' ', '.');
    JoinSplitAll(l, ' ');
    var t := Lower(text);
    forall i | 0 <= i <= |t| ensures MatchHere(NamePattern(l), t[i..]) <==> TokensFrom(tokens, t[i..]) {
      MatchWords(tokens, t[i..]);
    }
  }
}
