/**
 * The SQL LIKE patterns the search builds: PostgreSQL's LIKE matcher with
 * its default escape character "\", ILIKE as LIKE on lower-cased text, and
 * the wildcard escaping applied to version and date input.
 */
module LikePatterns {
  import opened Text

  /**
   * `t LIKE p`: "%" matches any run of characters, "_" any one character,
   * "\" makes the next character literal, and every other character matches
   * itself. PostgreSQL rejects a pattern that ends in a lone "\"; such a
   * pattern matches nothing here (the patterns built below never end in one).
   */
  predicate Like(p: string, t: string)
    decreases |p| + |t|
  {
    if p == [] then t == []
    else if p[0] == '%' then Like(p[1..], t) || (t != [] && Like(p, t[1..]))
    else if p[0] == '_' then t != [] && Like(p[1..], t[1..])
    else if p[0] == '\\' then |p| >= 2 && t != [] && t[0] == p[1] && Like(p[2..], t[1..])
    else t != [] && t[0] == p[0] && Like(p[1..], t[1..])
  }

  /** `t ILIKE p`: LIKE with both sides lower-cased. */
  predicate ILike(p: string, t: string)
  {
    Like(Lower(p), Lower(t))
  }

  /** The characters LIKE gives a meaning to. */
  predicate IsLikeSpecial(c: char)
  {
    c == '%' || c == '_' || c == '\\'
  }

  /** `gsub(c, "\\" + c)`: put an escape before every c. */
  function EscapeChar(s: string, c: char): (r: string)
    ensures |r| == |s| + Count(s, c)
  {
    if s == [] then []
    else (if s[0] == c then ['\\', c] else [s[0]]) + EscapeChar(s[1..], c)
  }

  /**
   * The escaping as ncc_node.rb writes it: `gsub("_", "\\_").gsub("%", "\\%")`.
   * A "\" in the input is left alone.
   */
  function EscapeLikeAsWritten(s: string): string
  {
    EscapeChar(EscapeChar(s, '_'), '%')
  }

  /** Escaping that makes every character of s literal: "\", "_" and "%" each get an escape. */
  function EscapeLike(s: string): string
  {
    if s == [] then []
    else (if IsLikeSpecial(s[0]) then ['\\', s[0]] else [s[0]]) + EscapeLike(s[1..])
  }

  // ---------------------------------------------------------------------------
  // What the patterns match

  /** A lone "%" matches everything. */
  lemma {:induction false} LikeAnything(t: string)
    ensures Like("%", t)
    decreases |t|
  {
    if t != [] {
      LikeAnything(t[1..]);
    }
  }

  /** A leading "%" lets the rest of the pattern match any suffix. */
  lemma {:induction false} LikeLeadingPercent(p: string, t: string)
    ensures Like("%" + p, t) <==> exists i | 0 <= i <= |t| :: Like(p, t[i..])
    decreases |t|
  {
    var q := "%" + p;
    assert q[1..] == p;
    assert t[0..] == t;
    if t != [] {
      LikeLeadingPercent(p, t[1..]);
      assert forall i | 1 <= i <= |t| :: t[1..][i - 1..] == t[i..];
      if Like(q, t[1..]) {
        var i :| 0 <= i <= |t[1..]| && Like(p, t[1..][i..]);
        assert t[1..][i..] == t[i + 1..];
      }
    }
  }

  /** An escaped string matches exactly itself, literally, at the start of the text. */
  lemma {:induction false} LikeEscapedPrefix(v: string, rest: string, t: string)
    ensures Like(EscapeLike(v) + rest, t) <==> StartsWith(t, v) && Like(rest, t[|v|..])
    decreases |v|
  {
    if v == [] {
      assert EscapeLike(v) + rest == rest;
      assert t[..0] == v && t[0..] == t;
    } else {
      var p := EscapeLike(v) + rest;
      var tail := EscapeLike(v[1..]) + rest;
      LikeEscapedPrefix(v[1..], rest, if t == [] then t else t[1..]);
      if IsLikeSpecial(v[0]) {
        assert p == ['\\', v[0]] + tail;
        assert p[0] == '\\' && p[1] == v[0] && p[2..] == tail;
      } else {
        assert p == [v[0]] + tail;
        assert p[0] == v[0] && p[1..] == tail;
      }
      if t != [] && |v| <= |t| {
        assert t[1..][|v| - 1..] == t[|v|..];
        assert StartsWith(t, v) <==> t[0] == v[0] && StartsWith(t[1..], v[1..]);
      }
    }
  }

  /**
   * `LIKE "%" + EscapeLike(v) + "%"` matches exactly the texts that contain v:
   * the escaping makes the user's input a literal substring search.
   */
  lemma LikeContains(v: string, t: string)
    ensures Like("%" + EscapeLike(v) + "%", t) <==> Contains(t, v)
  {
    var e := EscapeLike(v);
    assert "%" + e + "%" == "%" + (e + "%");
    LikeLeadingPercent(e + "%", t);
    forall i | 0 <= i <= |t| ensures Like(e + "%", t[i..]) <==> StartsWith(t[i..], v) {
      LikeEscapedPrefix(v, "%", t[i..]);
      if StartsWith(t[i..], v) {
        LikeAnything(t[i..][|v|..]);
      }
    }
  }

  /**
   * Without escaping, a literal occurrence still matches: an input without
   * "\" put between "%" signs selects every text that contains it (and
   * possibly more, since its "_" and "%" act as wildcards).
   */
  lemma {:induction false} LikeLiteralPrefix(v: string, rest: string, t: string)
    requires '\\' !in v && StartsWith(t, v) && Like(rest, t[|v|..])
    ensures Like(v + rest, t)
    decreases |v|
  {
    if v != [] {
      var p := v + rest;
      assert p[1..] == v[1..] + rest;
      assert t[1..][|v| - 1..] == t[|v|..];
      assert StartsWith(t[1..], v[1..]);
      LikeLiteralPrefix(v[1..], rest, t[1..]);
      if v[0] == '%' {
        assert Like(p[1..], t[1..]);
        assert Like(p, t[1..]);
      }
    } else {
      assert v + rest == rest;
    }
  }

  /** Text without "\", "_" and "%" is its own escaping. */
  lemma {:induction false} EscapeLikePlain(s: string)
    requires forall i | 0 <= i < |s| :: !IsLikeSpecial(s[i])
    ensures EscapeLike(s) == s
    decreases |s|
  {
    if s != [] {
      assert !IsLikeSpecial(s[0]);
      EscapeLikePlain(s[1..]);
      assert s == [s[0]] + s[1..];
    }
  }

  lemma LikeContainsUnescaped(v: string, t: string)
    requires '\\' !in v && Contains(t, v)
    ensures Like("%" + v + "%", t)
  {
    var i :| 0 <= i <= |t| && StartsWith(t[i..], v);
    LikeAnything(t[i..][|v|..]);
    LikeLiteralPrefix(v, "%", t[i..]);
    assert "%" + v + "%" == "%" + (v + "%");
    LikeLeadingPercent(v + "%", t);
  }

  /**
   * With the wildcards escaped, "3_" and "%3" find nothing in the version
   * text "3.0", although the unescaped "3_" would match it.
   */
  lemma EscapedWildcardsLiteral()
    ensures !Like("%" + EscapeLike("3_") + "%", "3.0")
    ensures !Like("%" + EscapeLike("%3") + "%", "3.0")
    ensures Like("%" + "3_" + "%", "3.0")
  {
    var t := "3.0";
    LikeContains("3_", t);
    LikeContains("%3", t);
    forall i | 0 <= i <= |t| ensures !StartsWith(t[i..], "3_") && !StartsWith(t[i..], "%3") {
      if i == 0 {
        assert t[0..][..2] == "3.";
      }
    }
    var p := "%" + "3_" + "%";
    LikeAnything("0");
    assert p[1..] == "3_%" && p[1..][1..] == "_%" && p[1..][1..][1..] == "%";
    assert t[1..] == ".0" && t[1..][1..] == "0";
    assert Like(p[1..][1..], t[1..]);
    assert Like(p[1..], t);
  }

  // ---------------------------------------------------------------------------
  // The escaping as written

  /** On input without "\" the escaping as written is the complete escaping. */
  lemma {:induction false} EscapeAsWrittenAgrees(s: string)
    requires '\\' !in s
    ensures EscapeLikeAsWritten(s) == EscapeLike(s)
    decreases |s|
  {
    if s != [] {
      EscapeAsWrittenAgrees(s[1..]);
      EscapeCharCons(s, '_');
      var u := EscapeChar(s, '_');
      var h := if s[0] == '_' then ['\\', '_'] else [s[0]];
      assert u == h + EscapeChar(s[1..], '_');
      EscapeCharAppend(h, EscapeChar(s[1..], '_'), '%');
    }
  }

  lemma EscapeCharCons(s: string, c: char)
    requires s != []
    ensures EscapeChar(s, c) == (if s[0] == c then ['\\', c] else [s[0]]) + EscapeChar(s[1..], c)
  {
  }

  lemma {:induction false} EscapeCharAppend(a: string, b: string, c: char)
    ensures EscapeChar(a + b, c) == EscapeChar(a, c) + EscapeChar(b, c)
    decreases |a|
  {
    if a == [] {
      assert a + b == b;
    } else {
      assert (a + b)[1..] == a[1..] + b;
      EscapeCharAppend(a[1..], b, c);
    }
  }

  /**
   * The escaping as written loses a "\" in the input: searching for a\b
   * (three characters) matches the text "ab" but not the text a\b itself.
   */
  lemma BackslashNotLiteral()
    ensures !IsLikeSpecial('a') && !IsLikeSpecial('b')
    ensures EscapeLikeAsWritten(['a', '\\', 'b']) == ['a', '\\', 'b']
    ensures Contains(['a', '\\', 'b'], ['a', '\\', 'b'])
    ensures !Like("%" + EscapeLikeAsWritten(['a', '\\', 'b']) + "%", ['a', '\\', 'b'])
    ensures Like("%" + EscapeLikeAsWritten(['a', '\\', 'b']) + "%", "ab")
  {
    var v := ['a', '\\', 'b'];
    assert StartsWith(v[0..], v);
    assert EscapeChar(v, '_') == v;
    assert EscapeChar(v, '%') == v;
    var p := "%" + v + "%";
    LikeLeadingPercent(v + "%", v);
    assert "%" + v + "%" == "%" + (v + "%");
    forall i | 0 <= i <= 3 ensures !Like(v + "%", v[i..]) {
      var q := v + "%";
      assert q[0] == 'a' && q[1..] == ['\\', 'b', '%'];
      var q2 := q[1..];
      assert q2[0] == '\\' && q2[1] == 'b' && q2[2..] == "%";
      if i == 0 {
        assert v[0..] == v && v[1..] == ['\\', 'b'];
      }
    }
    var ab := "ab";
    LikeAnything([]);
    assert ab[1..] == "b" && ab[1..][1..] == [];
    assert ab[0..] == ab;
    LikeLeadingPercent(v + "%", ab);
  }
}
