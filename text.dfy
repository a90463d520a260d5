/** Whitespace normalisation and excerpts of document bodies
    (`excerpt` in scripts/build_github_index.py), together with the
    whitespace-splitting reference it is proved against. */
module Text {
  import opened Types

  /** The characters Python's `\s` (and `str.strip()`) treat as whitespace:
      exactly those for which `str.isspace()` holds. */
  predicate IsSpace(c: char)
  {
    var k := c as int;
    k == 0x20 || 0x09 <= k <= 0x0D || 0x1C <= k <= 0x1F || k == 0x85 || k == 0xA0
    || k == 0x1680 || 0x2000 <= k <= 0x200A || k == 0x2028 || k == 0x2029
    || k == 0x202F || k == 0x205F || k == 0x3000
  }

  predicate AllSpace(s: string)
  {
    forall i :: 0 <= i < |s| ==> IsSpace(s[i])
  }

  predicate NoSpace(s: string)
  {
    forall i :: 0 <= i < |s| ==> !IsSpace(s[i])
  }

  /** A word in the sense of `str.split()`: a non-empty run of non-whitespace. */
  predicate IsWord(w: string)
  {
    |w| > 0 && NoSpace(w)
  }

  predicate AllWords(ws: seq<string>)
  {
    forall i :: 0 <= i < |ws| ==> IsWord(ws[i])
  }

  /** The shape every normalised text has: no whitespace at either end, no two
      whitespace characters in a row, and the only whitespace is ' '. */
  predicate Tidy(s: string)
  {
    && (s == [] || (!IsSpace(s[0]) && !IsSpace(s[|s| - 1])))
    && (forall i :: 0 <= i < |s| - 1 ==> !(IsSpace(s[i]) && IsSpace(s[i + 1])))
    && (forall i :: 0 <= i < |s| && IsSpace(s[i]) ==> s[i] == ' ')
  }

  // ---------------------------------------------------------------------
  // The operations `excerpt` is built from

  /** `s.lstrip()`: drop the leading whitespace run. */
  function TrimStart(s: string): (r: string)
    ensures |r| <= |s|
    ensures r == [] || !IsSpace(r[0])
    ensures s != [] && IsSpace(s[0]) ==> |r| < |s|
  {
    if s != [] && IsSpace(s[0]) then TrimStart(s[1..]) else s
  }

  /** `s.rstrip()`: drop the trailing whitespace run. */
  function TrimEnd(s: string): (r: string)
    ensures r <= s
    ensures r == [] || !IsSpace(r[|r| - 1])
  {
    if s != [] && IsSpace(s[|s| - 1]) then TrimEnd(s[..|s| - 1]) else s
  }

  /** `s.strip()`. */
  function Strip(s: string): string
  {
    TrimEnd(TrimStart(s))
  }

  /** `re.sub(r"\s+", " ", s)`: every maximal whitespace run becomes one space. */
  function Collapse(s: string): string
    decreases |s|
  {
    if s == [] then []
    else if IsSpace(s[0]) then " " + Collapse(TrimStart(s))
    else [s[0]] + Collapse(s[1..])
  }

  /** `re.sub(r"\s+", " ", s).strip()`. */
  function Normalize(s: string): string
  {
    Strip(Collapse(s))
  }

  /** Python's slice `s[:n]`, including its meaning for a negative `n`. */
  function SliceTo(s: string, n: int): (r: string)
    ensures r <= s
    ensures n >= 0 ==> |r| == if |s| <= n then |s| else n
    ensures n < 0 ==> |r| == if |s| + n <= 0 then 0 else |s| + n
  {
    if n >= 0 then (if |s| <= n then s else s[..n])
    else (if |s| + n <= 0 then [] else s[..|s| + n])
  }

  /** `excerpt(text, n)`: the body with its whitespace normalised, cut to `n`
      characters. `None` stands for a missing body. */
  function Excerpt(text: Option<string>, n: int): (r: string)
    ensures text.None? || text.value == "" ==> r == ""
    ensures n >= 0 ==> |r| <= n
    ensures r == [] || !IsSpace(r[0])
    ensures forall i :: 0 <= i < |r| - 1 ==> !(IsSpace(r[i]) && IsSpace(r[i + 1]))
    ensures forall i :: 0 <= i < |r| && IsSpace(r[i]) ==> r[i] == ' '
    ensures var j := JoinSpaced(Words(text.GetOr(""))); n >= 0 ==> r == if |j| <= n then j else j[..n]
  {
    var s := text.GetOr("");
    NormalizeIsJoinedWords(s);
    JoinIsTidy(Words(s));
    var r := SliceTo(Normalize(s), n);
    TidyPrefix(Normalize(s), r);
    r
  }

  // ---------------------------------------------------------------------
  // The reference: splitting on whitespace and joining with single spaces

  /** The leading run of non-whitespace characters. */
  function WordPrefix(s: string): (w: string)
    ensures w <= s && NoSpace(w)
    ensures |w| < |s| ==> IsSpace(s[|w|])
    ensures s != [] && !IsSpace(s[0]) ==> |w| >= 1
  {
    if s != [] && !IsSpace(s[0]) then [s[0]] + WordPrefix(s[1..]) else []
  }

  /** `s.split()` with no separator: the whitespace-separated words of `s`. */
  function Words(s: string): (ws: seq<string>)
    ensures AllWords(ws)
    decreases |s|
  {
    var t := TrimStart(s);
    if t == [] then []
    else
      var w := WordPrefix(t);
      [w] + Words(t[|w|..])
  }

  /** `" ".join(parts)`. */
  function JoinSpaced(parts: seq<string>): string
  {
    if parts == [] then []
    else if |parts| == 1 then parts[0]
    else parts[0] + " " + JoinSpaced(parts[1..])
  }

  // ---------------------------------------------------------------------
  // Lemmas

  lemma NoSpaceTail(w: string)
    requires w != [] && NoSpace(w)
    ensures NoSpace(w[1..]) && !IsSpace(w[0])
  {
    forall i | 0 <= i < |w| - 1 ensures !IsSpace(w[1..][i]) {
      assert w[1..][i] == w[i + 1];
    }
  }

  lemma AllSpaceTail(s: string)
    requires s != [] && AllSpace(s)
    ensures AllSpace(s[1..]) && IsSpace(s[0])
  {
    forall i | 0 <= i < |s| - 1 ensures IsSpace(s[1..][i]) {
      assert s[1..][i] == s[i + 1];
    }
  }

  lemma AllSpaceFront(s: string)
    requires s != [] && AllSpace(s)
    ensures AllSpace(s[..|s| - 1]) && IsSpace(s[|s| - 1])
  {
    var p := s[..|s| - 1];
    forall i | 0 <= i < |p| ensures IsSpace(p[i]) {
      assert p[i] == s[i];
    }
  }

  lemma AllWordsTail(ws: seq<string>)
    requires ws != [] && AllWords(ws)
    ensures AllWords(ws[1..]) && IsWord(ws[0])
  {
    forall i | 0 <= i < |ws| - 1 ensures IsWord(ws[1..][i]) {
      assert ws[1..][i] == ws[i + 1];
    }
  }

  /** What `lstrip` leaves is a suffix of its input. */
  lemma {:induction false} TrimStartSuffix(s: string)
    ensures TrimStart(s) == s[|s| - |TrimStart(s)|..]
  {
    if s != [] && IsSpace(s[0]) {
      TrimStartSuffix(s[1..]);
      assert s[1..][|s[1..]| - |TrimStart(s)|..] == s[|s| - |TrimStart(s)|..];
    }
  }

  /** What `lstrip` removes is whitespace. */
  lemma {:induction false} TrimStartRemovesSpace(s: string)
    ensures AllSpace(s[..|s| - |TrimStart(s)|])
  {
    if s != [] && IsSpace(s[0]) {
      TrimStartRemovesSpace(s[1..]);
      var k := |s| - |TrimStart(s)|;
      forall i | 0 <= i < k ensures IsSpace(s[..k][i]) {
        if i > 0 {
          assert s[..k][i] == s[1..][..k - 1][i - 1];
        }
      }
    }
  }

  /** Joining words gives a tidy text, empty exactly when there are no words. */
  lemma {:induction false} JoinIsTidy(ws: seq<string>)
    requires AllWords(ws)
    ensures Tidy(JoinSpaced(ws))
    ensures JoinSpaced(ws) == [] <==> ws == []
  {
    if |ws| >= 2 {
      AllWordsTail(ws);
      var w, rest := ws[0], JoinSpaced(ws[1..]);
      JoinIsTidy(ws[1..]);
      var j := w + " " + rest;
      assert JoinSpaced(ws) == j;
      forall i | 0 <= i < |j| - 1 ensures !(IsSpace(j[i]) && IsSpace(j[i + 1])) {
        if i < |w| - 1 {
          assert j[i] == w[i];
        } else if i == |w| - 1 {
          assert j[i] == w[|w| - 1];
        } else if i == |w| {
          assert j[i + 1] == rest[0];
        } else {
          assert j[i] == rest[i - |w| - 1] && j[i + 1] == rest[i - |w|];
        }
      }
      forall i | 0 <= i < |j| ensures IsSpace(j[i]) ==> j[i] == ' ' {
        if i < |w| {
          assert j[i] == w[i];
        } else if i > |w| {
          assert j[i] == rest[i - |w| - 1];
        }
      }
      assert j[0] == w[0] && j[|j| - 1] == rest[|rest| - 1];
    } else if |ws| == 1 {
      assert IsWord(ws[0]);
    }
  }

  /** A prefix of a tidy text keeps everything tidiness says except the trailing end. */
  lemma TidyPrefix(j: string, r: string)
    requires Tidy(j) && r <= j
    ensures r == [] || !IsSpace(r[0])
    ensures forall i :: 0 <= i < |r| - 1 ==> !(IsSpace(r[i]) && IsSpace(r[i + 1]))
    ensures forall i :: 0 <= i < |r| && IsSpace(r[i]) ==> r[i] == ' '
  {
    forall i | 0 <= i < |r| ensures r[i] == j[i] { }
  }

  /** Collapsing a text that starts with a word keeps the word as it is. */
  lemma {:induction false} CollapseWord(w: string, rest: string)
    requires NoSpace(w)
    ensures Collapse(w + rest) == w + Collapse(rest)
  {
    if w != [] {
      NoSpaceTail(w);
      var x := w + rest;
      assert x[0] == w[0];
      assert x[1..] == w[1..] + rest;
      assert x != [] && !IsSpace(x[0]);
      assert Collapse(x) == [x[0]] + Collapse(x[1..]);
      CollapseWord(w[1..], rest);
      assert w == [w[0]] + w[1..];
    } else {
      assert w + rest == rest;
    }
  }

  /** Whitespace at the front of a text does not change its words. */
  lemma WordsSkipSpace(s: string)
    ensures Words(s) == Words(TrimStart(s))
  {
    var t := TrimStart(s);
    assert TrimStart(t) == t;
  }

  lemma WordsStep(t: string)
    requires t != [] && !IsSpace(t[0])
    ensures Words(t) == [WordPrefix(t)] + Words(t[|WordPrefix(t)|..])
  {
    assert TrimStart(t) == t;
  }

  lemma CollapseSpaceRun(s: string)
    requires s != [] && IsSpace(s[0])
    ensures Collapse(s) == " " + Collapse(TrimStart(s))
  {
  }

  lemma JoinCons(w: string, ws: seq<string>)
    requires ws != []
    ensures JoinSpaced([w] + ws) == w + " " + JoinSpaced(ws)
  {
    assert ([w] + ws)[1..] == ws;
  }

  /** Trailing whitespace in the padding ends the text with whitespace. */
  lemma LastOfAllSpaceRun(rest: string)
    requires rest != [] && TrimStart(rest) == []
    ensures IsSpace(rest[|rest| - 1])
  {
    TrimStartRemovesSpace(rest);
    assert rest[..|rest|] == rest;
  }

  /** The step of CollapseAsWords where a word is followed by more words. */
  lemma WordThenWords(w: string, cu: string, wu: seq<string>, tail: string)
    requires wu != []
    requires cu == JoinSpaced(wu) + tail
    ensures w + (" " + cu) == JoinSpaced([w] + wu) + tail
  {
    JoinCons(w, wu);
  }

  /** On a text that does not start with whitespace, collapsing yields the
      joined words, plus one space when the text ends in whitespace. */
  lemma {:induction false} CollapseAsWords(t: string)
    requires t == [] || !IsSpace(t[0])
    ensures Collapse(t) == JoinSpaced(Words(t)) + (if t != [] && IsSpace(t[|t| - 1]) then " " else "")
    decreases |t|
  {
    if t != [] {
      var w := WordPrefix(t);
      var rest := t[|w|..];
      assert t == w + rest;
      CollapseWord(w, rest);
      WordsStep(t);
      if rest == [] {
        assert Words(rest) == [];
        assert t[|t| - 1] == w[|w| - 1];
        assert JoinSpaced([w]) == w;
        assert Collapse(t) == w + [];
      } else {
        var u := TrimStart(rest);
        CollapseSpaceRun(rest);
        WordsSkipSpace(rest);
        assert t[|t| - 1] == rest[|rest| - 1];
        TrimStartSuffix(rest);
        if u == [] {
          LastOfAllSpaceRun(rest);
          assert Words(u) == [];
          assert JoinSpaced([w]) == w;
          assert Collapse(t) == w + " ";
        } else {
          CollapseAsWords(u);
          WordsStep(u);
          WordThenWords(w, Collapse(u), Words(u), if IsSpace(u[|u| - 1]) then " " else "");
          assert t[|t| - 1] == u[|u| - 1];
        }
      }
    }
  }

  lemma {:induction false} TrimStartPadding(pre: string, s: string)
    requires AllSpace(pre)
    ensures TrimStart(pre + s) == TrimStart(s)
  {
    if pre != [] {
      AllSpaceTail(pre);
      assert (pre + s)[0] == pre[0];
      assert (pre + s)[1..] == pre[1..] + s;
      TrimStartPadding(pre[1..], s);
    } else {
      assert pre + s == s;
    }
  }

  lemma {:induction false} TrimEndPadding(s: string, post: string)
    requires AllSpace(post)
    requires s == [] || !IsSpace(s[|s| - 1])
    ensures TrimEnd(s + post) == s
  {
    if post != [] {
      AllSpaceFront(post);
      var p := post[..|post| - 1];
      assert (s + post)[|s + post| - 1] == post[|post| - 1];
      assert (s + post)[..|s + post| - 1] == s + p;
      TrimEndPadding(s, p);
    } else {
      assert s + post == s;
    }
  }

  /** Stripping removes whitespace padding around a tidy core. */
  lemma StripPadding(pre: string, core: string, post: string)
    requires AllSpace(pre) && AllSpace(post)
    requires core == [] || (!IsSpace(core[0]) && !IsSpace(core[|core| - 1]))
    ensures Strip(pre + core + post) == core
  {
    assert pre + core + post == pre + (core + post);
    TrimStartPadding(pre, core + post);
    if core == [] {
      assert core + post == post + [];
      TrimStartPadding(post, []);
      assert TrimStart(pre + core + post) == [];
    } else {
      assert (core + post)[0] == core[0];
      assert TrimStart(core + post) == core + post;
      TrimEndPadding(core, post);
    }
  }

  /** The reference definition: `re.sub(r"\s+", " ", s).strip()` is
      `" ".join(s.split())`. */
  lemma NormalizeIsJoinedWords(s: string)
    ensures Normalize(s) == JoinSpaced(Words(s))
  {
    if s != [] && IsSpace(s[0]) {
      NormalizeLeadingSpace(s);
    } else {
      NormalizeWordStart(s);
    }
  }

  lemma NormalizeWordStart(s: string)
    requires s == [] || !IsSpace(s[0])
    ensures Normalize(s) == JoinSpaced(Words(s))
  {
    var j := JoinSpaced(Words(s));
    var tail := if s != [] && IsSpace(s[|s| - 1]) then " " else "";
    assert Collapse(s) == [] + j + tail by {
      CollapseAsWords(s);
    }
    assert Strip([] + j + tail) == j by {
      JoinIsTidy(Words(s));
      assert AllSpace(tail);
      StripPadding([], j, tail);
    }
  }

  lemma NormalizeLeadingSpace(s: string)
    requires s != [] && IsSpace(s[0])
    ensures Normalize(s) == JoinSpaced(Words(s))
  {
    var u := TrimStart(s);
    assert Normalize(s) == Normalize(u) by {
      CollapseSpaceRun(s);
      assert AllSpace(" ");
      TrimStartPadding(" ", Collapse(u));
    }
    NormalizeWordStart(u);
    WordsSkipSpace(s);
  }

  /** A text that is a word followed by nothing or by whitespace starts with that word. */
  lemma {:induction false} WordPrefixOf(w: string, rest: string)
    requires NoSpace(w)
    requires rest == [] || IsSpace(rest[0])
    ensures WordPrefix(w + rest) == w
  {
    if w != [] {
      NoSpaceTail(w);
      assert (w + rest)[0] == w[0];
      assert (w + rest)[1..] == w[1..] + rest;
      WordPrefixOf(w[1..], rest);
      assert w == [w[0]] + w[1..];
    } else {
      assert w + rest == rest;
    }
  }

  /** Splitting undoes joining: `" ".join(ws).split() == ws` for words `ws`. */
  lemma {:induction false} WordsOfJoin(ws: seq<string>)
    requires AllWords(ws)
    ensures Words(JoinSpaced(ws)) == ws
  {
    if ws != [] {
      AllWordsTail(ws);
      var w := ws[0];
      if |ws| == 1 {
        assert JoinSpaced(ws) == w + [];
        WordPrefixOf(w, []);
        assert TrimStart(w) == w;
        assert w[|w|..] == [];
        assert Words([]) == [];
      } else {
        var rest := JoinSpaced(ws[1..]);
        JoinIsTidy(ws[1..]);
        var j := w + (" " + rest);
        assert JoinSpaced(ws) == j;
        assert j[0] == w[0];
        assert TrimStart(j) == j;
        WordPrefixOf(w, " " + rest);
        assert j[|w|..] == " " + rest;
        assert (" " + rest)[1..] == rest;
        assert TrimStart(rest) == rest;
        assert TrimStart(" " + rest) == rest;
        WordsSkipSpace(" " + rest);
        WordsOfJoin(ws[1..]);
      }
    }
  }

  /** Normalising is idempotent. */
  lemma NormalizeIdempotent(s: string)
    ensures Normalize(Normalize(s)) == Normalize(s)
  {
    NormalizeIsJoinedWords(s);
    NormalizeIsJoinedWords(Normalize(s));
    WordsOfJoin(Words(s));
  }
}
