/** The two text normalisers of scraper.py: clean_text (everything before its
    final NFKC step, which stays a parameter) and clean_text_aws. */
module TextClean {

  /** Python's str.isspace(): exactly the characters that `\s` matches in a str
      pattern and that str.strip() with no argument removes. */
  predicate IsSpace(c: char)
  {
    ('\t' <= c <= '\r') || ('\U{1C}' <= c <= '\U{1F}') || c == ' ' || c == '\U{85}' || c == '\U{A0}'
    || c == '\U{1680}' || ('\U{2000}' <= c <= '\U{200A}') || c == '\U{2028}' || c == '\U{2029}'
    || c == '\U{202F}' || c == '\U{205F}' || c == '\U{3000}'
  }

  /** NO-BREAK SPACE, U+00A0: whitespace to Python, replaced by ' ' in clean_text. */
  const Nbsp: char := '\U{A0}'

  predicate AllSpace(s: string)
  {
    forall i :: 0 <= i < |s| ==> IsSpace(s[i])
  }

  /** No whitespace at either end. */
  predicate Trimmed(s: string)
  {
    s == [] || (!IsSpace(s[0]) && !IsSpace(s[|s| - 1]))
  }

  /** Every whitespace character is a plain ' ' and no two whitespace characters are adjacent. */
  predicate SingleSpaced(s: string)
  {
    (forall i :: 0 <= i < |s| && IsSpace(s[i]) ==> s[i] == ' ')
    && (forall i :: 0 <= i < |s| - 1 && IsSpace(s[i]) ==> !IsSpace(s[i + 1]))
  }

  /** No backslash immediately followed by 'n' (the two-character text `\n`). */
  predicate NoEscapedNewline(s: string)
  {
    forall i :: 0 <= i < |s| - 1 && s[i] == '\\' ==> s[i + 1] != 'n'
  }

  /** The characters of `s` that are not whitespace, in order. */
  function NonSpace(s: string): string
  {
    if s == [] then [] else (if IsSpace(s[0]) then [] else [s[0]]) + NonSpace(s[1..])
  }

  // ---------------------------------------------------------------------------
  // str.strip()

  /** str.lstrip(): drops the leading whitespace run and nothing else. */
  function LStrip(s: string): (r: string)
    ensures |r| <= |s|
    ensures r == [] || !IsSpace(r[0])
    ensures forall i :: 0 <= i < |s| - |r| ==> IsSpace(s[i])
  {
    if s != [] && IsSpace(s[0]) then
      LStrip(s[1..])
    else
      s
  }

  /** str.rstrip(): drops the trailing whitespace run and nothing else. */
  function RStrip(s: string): (r: string)
    ensures |r| <= |s|
    ensures r == [] || !IsSpace(r[|r| - 1])
    ensures forall i :: |r| <= i < |s| ==> IsSpace(s[i])
  {
    if s != [] && IsSpace(s[|s| - 1]) then
      RStrip(s[..|s| - 1])
    else
      s
  }

  /** What lstrip() leaves is a suffix of its argument. */
  lemma {:induction false} LStripSuffix(s: string)
    ensures LStrip(s) == s[|s| - |LStrip(s)|..]
    decreases |s|
  {
    if s != [] && IsSpace(s[0]) {
      LStripSuffix(s[1..]);
      assert s[1..][|s| - 1 - |LStrip(s)|..] == s[|s| - |LStrip(s)|..];
    }
  }

  /** What rstrip() leaves is a prefix of its argument. */
  lemma {:induction false} RStripPrefix(s: string)
    ensures RStrip(s) == s[..|RStrip(s)|]
    decreases |s|
  {
    if s != [] && IsSpace(s[|s| - 1]) {
      RStripPrefix(s[..|s| - 1]);
      assert s[..|s| - 1][..|RStrip(s)|] == s[..|RStrip(s)|];
    }
  }

  /** str.strip() with no argument. */
  function Strip(s: string): (r: string)
    ensures |r| <= |s|
    ensures Trimmed(r)
    ensures Trimmed(s) ==> r == s
  {
    var l := LStrip(s);
    RStripPrefix(l);
    RStrip(l)
  }

  /** The result of Strip is a contiguous slice of its argument. */
  lemma StripSlice(s: string) returns (k: nat)
    ensures k + |Strip(s)| <= |s| && Strip(s) == s[k..k + |Strip(s)|]
  {
    var l := LStrip(s);
    k := |s| - |l|;
    LStripSuffix(s);
    var r := RStrip(l);
    RStripPrefix(l);
    assert r == l[..|r|];
    assert l[..|r|] == s[k..k + |r|];
  }

  /** Every slice of a single-spaced text is single-spaced. */
  lemma SliceSingleSpaced(s: string, a: nat, b: nat)
    requires a <= b <= |s| && SingleSpaced(s)
    ensures SingleSpaced(s[a..b])
  {
    var t := s[a..b];
    forall i | 0 <= i < |t| && IsSpace(t[i]) ensures t[i] == ' ' {
      assert t[i] == s[a + i];
    }
    forall i | 0 <= i < |t| - 1 && IsSpace(t[i]) ensures !IsSpace(t[i + 1]) {
      assert t[i] == s[a + i] && t[i + 1] == s[a + i + 1];
    }
  }

  // ---------------------------------------------------------------------------
  // clean_text_aws: re.sub(r'\s+', ' ', text).strip()

  /** re.sub(r'\s+', ' ', s): every maximal whitespace run becomes one ' '. */
  function CollapseSpace(s: string): string
    decreases |s|
  {
    if s == [] then []
    else if IsSpace(s[0]) then [' '] + CollapseSpace(LStrip(s[1..]))
    else [s[0]] + CollapseSpace(s[1..])
  }

  /** Putting `x` in front of a single-spaced text keeps it single-spaced when
      `x` is a non-space, or a ' ' followed by a non-space or by nothing. */
  lemma ConsSingleSpaced(x: char, c: string)
    requires SingleSpaced(c)
    requires IsSpace(x) ==> x == ' ' && (c == [] || !IsSpace(c[0]))
    ensures SingleSpaced([x] + c)
  {
    var r := [x] + c;
    forall i | 1 <= i < |r| ensures r[i] == c[i - 1] { }
  }

  /** The whitespace collapse leaves every whitespace character a ' ' with no
      whitespace next to it, and keeps emptiness and whether the text starts
      with whitespace. */
  lemma {:induction false} CollapseSpaceShape(s: string)
    ensures SingleSpaced(CollapseSpace(s))
    ensures CollapseSpace(s) == [] <==> s == []
    ensures CollapseSpace(s) != [] ==> (IsSpace(CollapseSpace(s)[0]) <==> IsSpace(s[0]))
    decreases |s|
  {
    if s != [] {
      if IsSpace(s[0]) {
        var rest := LStrip(s[1..]);
        CollapseSpaceShape(rest);
        ConsSingleSpaced(' ', CollapseSpace(rest));
      } else {
        CollapseSpaceShape(s[1..]);
        ConsSingleSpaced(s[0], CollapseSpace(s[1..]));
      }
    }
  }

  /** clean_text_aws (scraper.py:48-51). */
  function CleanTextAws(text: string): string
  {
    Strip(CollapseSpace(text))
  }

  /** Strip keeps the single-spacing of its argument, since it returns a slice of it. */
  lemma StripKeepsSingleSpaced(s: string)
    requires SingleSpaced(s)
    ensures SingleSpaced(Strip(s))
  {
    var k := StripSlice(s);
    SliceSingleSpaced(s, k, k + |Strip(s)|);
  }

  /** A string that is already single-spaced is left unchanged by the whitespace collapse. */
  lemma {:induction false} CollapseSpaceFixesSingleSpaced(s: string)
    requires SingleSpaced(s)
    ensures CollapseSpace(s) == s
    decreases |s|
  {
    if s != [] {
      var tail := s[1..];
      assert SingleSpaced(tail) by {
        forall i | 0 <= i < |tail| ensures tail[i] == s[i + 1] { }
      }
      CollapseSpaceFixesSingleSpaced(tail);
      if IsSpace(s[0]) {
        assert tail == [] || !IsSpace(tail[0]);
        assert LStrip(tail) == tail;
        assert CollapseSpace(s) == [' '] + tail;
      } else {
        assert CollapseSpace(s) == [s[0]] + tail;
      }
      assert s == [s[0]] + tail;
    }
  }

  /** In the output of clean_text_aws every whitespace character is ' ', no two
      are adjacent, and neither end is whitespace. */
  lemma CleanTextAwsIsSingleSpacedAndTrimmed(text: string)
    ensures SingleSpaced(CleanTextAws(text))
    ensures Trimmed(CleanTextAws(text))
  {
    CollapseSpaceShape(text);
    StripKeepsSingleSpaced(CollapseSpace(text));
  }

  /** clean_text_aws gives "" exactly for an empty or all-whitespace input. */
  lemma CleanTextAwsEmptyIff(text: string)
    ensures CleanTextAws(text) == [] <==> AllSpace(text)
  {
    var c := CollapseSpace(text);
    StripEmptyIff(c);
    NonSpaceCollapse(text);
    NonSpaceEmptyIff(text);
    NonSpaceEmptyIff(c);
  }

  /** clean_text_aws applied to its own output changes nothing. */
  lemma CleanTextAwsIdempotent(text: string)
    ensures CleanTextAws(CleanTextAws(text)) == CleanTextAws(text)
  {
    var t := CleanTextAws(text);
    CleanTextAwsIsSingleSpacedAndTrimmed(text);
    CollapseSpaceFixesSingleSpaced(t);
  }

  lemma {:induction false} NonSpaceConcat(a: string, b: string)
    ensures NonSpace(a + b) == NonSpace(a) + NonSpace(b)
    decreases |a|
  {
    if a != [] {
      var h := if IsSpace(a[0]) then [] else [a[0]];
      assert (a + b)[0] == a[0];
      assert (a + b)[1..] == a[1..] + b;
      NonSpaceConcat(a[1..], b);
      calc {
        NonSpace(a + b);
        h + NonSpace(a[1..] + b);
        h + (NonSpace(a[1..]) + NonSpace(b));
        (h + NonSpace(a[1..])) + NonSpace(b);
      }
    } else {
      assert a + b == b;
    }
  }

  lemma {:induction false} NonSpaceEmptyIff(s: string)
    ensures NonSpace(s) == [] <==> AllSpace(s)
    decreases |s|
  {
    if s != [] {
      NonSpaceEmptyIff(s[1..]);
      assert AllSpace(s) <==> IsSpace(s[0]) && AllSpace(s[1..]);
    }
  }

  lemma {:induction false} NonSpaceLStrip(s: string)
    ensures NonSpace(LStrip(s)) == NonSpace(s)
    decreases |s|
  {
    if s != [] && IsSpace(s[0]) {
      NonSpaceLStrip(s[1..]);
    }
  }

  lemma NonSpaceRStrip(s: string)
    ensures NonSpace(RStrip(s)) == NonSpace(s)
  {
    var r := RStrip(s);
    RStripPrefix(s);
    var rest := s[|r|..];
    assert s == r + rest;
    NonSpaceConcat(r, rest);
    assert AllSpace(rest) by {
      forall i | 0 <= i < |rest| ensures IsSpace(rest[i]) {
        assert rest[i] == s[|r| + i];
      }
    }
    NonSpaceEmptyIff(rest);
  }

  lemma NonSpaceStrip(s: string)
    ensures NonSpace(Strip(s)) == NonSpace(s)
  {
    NonSpaceLStrip(s);
    NonSpaceRStrip(LStrip(s));
  }

  /** Strip returns "" exactly for an empty or all-whitespace argument. */
  lemma StripEmptyIff(s: string)
    ensures Strip(s) == [] <==> AllSpace(s)
  {
    var r := Strip(s);
    NonSpaceStrip(s);
    NonSpaceEmptyIff(s);
    if r != [] {
      assert NonSpace(r) == [r[0]] + NonSpace(r[1..]);
    }
  }

  lemma {:induction false} NonSpaceCollapse(s: string)
    ensures NonSpace(CollapseSpace(s)) == NonSpace(s)
    decreases |s|
  {
    if s != [] {
      var c := CollapseSpace(s);
      if IsSpace(s[0]) {
        var rest := LStrip(s[1..]);
        NonSpaceCollapse(rest);
        NonSpaceLStrip(s[1..]);
        assert c[1..] == CollapseSpace(rest);
        assert NonSpace(c) == NonSpace(c[1..]);
        assert NonSpace(s) == NonSpace(s[1..]);
      } else {
        NonSpaceCollapse(s[1..]);
        assert c[1..] == CollapseSpace(s[1..]);
      }
    }
  }

  /** clean_text_aws only touches whitespace: the non-whitespace characters of
      its input survive, all of them and in order. */
  lemma CleanTextAwsKeepsNonSpace(text: string)
    ensures NonSpace(CleanTextAws(text)) == NonSpace(text)
  {
    NonSpaceStrip(CollapseSpace(text));
    NonSpaceCollapse(text);
  }

  // ---------------------------------------------------------------------------
  // clean_text_aws against an independent reference: ' '.join(text.split())

  /** The longest prefix of `s` that holds no whitespace. */
  function TakeWord(s: string): (w: string)
    ensures |w| <= |s|
    ensures forall i :: 0 <= i < |w| ==> !IsSpace(w[i])
    ensures |w| == |s| || IsSpace(s[|w|])
  {
    if s == [] || IsSpace(s[0]) then [] else [s[0]] + TakeWord(s[1..])
  }

  lemma {:induction false} TakeWordPrefix(s: string)
    ensures TakeWord(s) == s[..|TakeWord(s)|]
    decreases |s|
  {
    if s != [] && !IsSpace(s[0]) {
      TakeWordPrefix(s[1..]);
    }
  }

  /** str.split() with no argument: the maximal whitespace-free runs of `s`, in order. */
  function Words(s: string): (ws: seq<string>)
    decreases |s|
  {
    var t := LStrip(s);
    if t == [] then []
    else
      var w := TakeWord(t);
      [w] + Words(t[|w|..])
  }

  /** sep.join(ws). */
  function Join(ws: seq<string>, sep: string): string
  {
    if ws == [] then [] else if |ws| == 1 then ws[0] else ws[0] + sep + Join(ws[1..], sep)
  }

  /** Every word is non-empty and holds no whitespace. */
  lemma {:induction false} WordsAreWords(s: string)
    ensures forall k :: 0 <= k < |Words(s)| ==> Words(s)[k] != [] && NonSpace(Words(s)[k]) == Words(s)[k]
    decreases |s|
  {
    var t := LStrip(s);
    if t != [] {
      var w := TakeWord(t);
      var ws := Words(t[|w|..]);
      assert Words(s) == [w] + ws;
      WordsAreWords(t[|w|..]);
      NoSpaceIsNonSpace(w);
      assert w != [];
      forall k | 0 <= k < |Words(s)|
        ensures Words(s)[k] != [] && NonSpace(Words(s)[k]) == Words(s)[k]
      {
        if k > 0 {
          assert Words(s)[k] == ws[k - 1];
        }
      }
    }
  }

  lemma {:induction false} NoSpaceIsNonSpace(w: string)
    requires forall i :: 0 <= i < |w| ==> !IsSpace(w[i])
    ensures NonSpace(w) == w
    decreases |w|
  {
    if w != [] {
      NoSpaceIsNonSpace(w[1..]);
    }
  }

  /** lstrip() of leading whitespace followed by a text that starts with a non-space. */
  lemma {:induction false} LStripSpacePrefix(ws: string, rest: string)
    requires AllSpace(ws)
    requires rest == [] || !IsSpace(rest[0])
    ensures LStrip(ws + rest) == rest
    decreases |ws|
  {
    if ws == [] {
      assert ws + rest == rest;
    } else {
      assert (ws + rest)[1..] == ws[1..] + rest;
      LStripSpacePrefix(ws[1..], rest);
    }
  }

  /** rstrip() of a text ending in a non-space followed by trailing whitespace. */
  lemma {:induction false} RStripSpaceSuffix(x: string, ws: string)
    requires x == [] || !IsSpace(x[|x| - 1])
    requires AllSpace(ws)
    ensures RStrip(x + ws) == x
    decreases |ws|
  {
    if ws == [] {
      assert x + ws == x;
    } else {
      assert (x + ws)[..|x + ws| - 1] == x + ws[..|ws| - 1];
      RStripSpaceSuffix(x, ws[..|ws| - 1]);
    }
  }

  /** rstrip() only looks behind the last non-space character. */
  lemma {:induction false} RStripAfter(x: string, y: string)
    requires y != [] && !IsSpace(y[0])
    ensures RStrip(x + y) == x + RStrip(y)
    decreases |y|
  {
    if IsSpace(y[|y| - 1]) {
      var y' := y[..|y| - 1];
      assert (x + y)[..|x + y| - 1] == x + y';
      RStripAfter(x, y');
    }
  }

  /** A whitespace-free word passes through the collapse unchanged. */
  lemma {:induction false} CollapseWord(w: string, rest: string)
    requires forall i :: 0 <= i < |w| ==> !IsSpace(w[i])
    ensures CollapseSpace(w + rest) == w + CollapseSpace(rest)
    decreases |w|
  {
    if w == [] {
      assert w + rest == rest;
    } else {
      assert (w + rest)[1..] == w[1..] + rest;
      CollapseWord(w[1..], rest);
    }
  }

  /** A maximal whitespace run becomes one ' '. */
  lemma CollapseRun(ws: string, rest: string)
    requires ws != [] && AllSpace(ws)
    requires rest == [] || !IsSpace(rest[0])
    ensures CollapseSpace(ws + rest) == [' '] + CollapseSpace(rest)
  {
    assert (ws + rest)[1..] == ws[1..] + rest;
    LStripSpacePrefix(ws[1..], rest);
  }

  /** The words of a text and of its lstrip() are the same. */
  lemma WordsLStrip(s: string)
    ensures Words(LStrip(s)) == Words(s)
  {
    var t := LStrip(s);
    assert LStrip(t) == t;
  }

  lemma JoinCons(w: string, ws: seq<string>)
    requires ws != []
    ensures Join([w] + ws, " ") == w + " " + Join(ws, " ")
  {
    assert ([w] + ws)[1..] == ws;
  }

  /** The collapse of a text that starts with whitespace (or is empty): at most
      one ' ', then the collapse of its lstrip(). */
  lemma CollapseAfterWord(d: string) returns (sp: string)
    requires d == [] || IsSpace(d[0])
    ensures (sp == [] && d == []) || sp == [' ']
    ensures CollapseSpace(d) == sp + CollapseSpace(LStrip(d))
  {
    if d == [] {
      sp := [];
    } else {
      sp := [' '];
    }
  }

  /** The collapse of a word followed by a text that starts with whitespace. */
  lemma CollapseFirstWord(w: string, d: string, sp: string, e: string)
    requires forall i :: 0 <= i < |w| ==> !IsSpace(w[i])
    requires CollapseSpace(d) == sp + CollapseSpace(e)
    ensures CollapseSpace(w + d) == w + sp + CollapseSpace(e)
  {
    CollapseWord(w, d);
    assert w + (sp + CollapseSpace(e)) == w + sp + CollapseSpace(e);
  }

  /** The words of a text that starts with a non-space: its first word, then the
      words of what follows the whitespace run after it. */
  lemma WordsFirstWord(t: string)
    requires t != [] && !IsSpace(t[0])
    ensures Words(t) == [TakeWord(t)] + Words(LStrip(t[|TakeWord(t)|..]))
  {
    assert LStrip(t) == t;
    WordsLStrip(t[|TakeWord(t)|..]);
  }

  /** A text that starts with a non-space splits into its first word `w`, at most
      one ' ' standing for the whitespace run after it, and a rest `e` that starts
      with a non-space; the collapse and the words follow that split. */
  lemma SplitFirstWord(t: string) returns (w: string, sp: string, e: string)
    requires t != [] && !IsSpace(t[0])
    ensures w != [] && !IsSpace(w[|w| - 1])
    ensures (sp == [] && e == []) || sp == [' ']
    ensures e == [] || !IsSpace(e[0])
    ensures |e| < |t|
    ensures CollapseSpace(t) == w + sp + CollapseSpace(e)
    ensures Words(t) == [w] + Words(e)
  {
    w := TakeWord(t);
    TakeWordPrefix(t);
    var d := t[|w|..];
    assert t == w + d;
    e := LStrip(d);
    sp := CollapseAfterWord(d);
    CollapseFirstWord(w, d, sp, e);
    WordsFirstWord(t);
  }

  /** The last word: rstrip() drops the ' ' the collapse may leave after it. */
  lemma CollapseIsJoinLast(t: string, w: string, sp: string)
    requires sp == [] || sp == [' ']
    requires w != [] && !IsSpace(w[|w| - 1])
    requires CollapseSpace(t) == w + sp + CollapseSpace([])
    requires Words(t) == [w] + Words([])
    ensures RStrip(CollapseSpace(t)) == Join(Words(t), " ")
  {
    assert w + sp + CollapseSpace([]) == w + sp;
    RStripSpaceSuffix(w, sp);
    assert [w] + Words([]) == [w];
  }

  /** A word, one ' ' and the collapse of a text that starts with a non-space:
      rstrip() leaves the word, the ' ' and the rstrip() of that collapse. */
  lemma CollapseIsJoinStep(t: string, w: string, e: string)
    requires e != [] && !IsSpace(e[0])
    requires CollapseSpace(t) == w + [' '] + CollapseSpace(e)
    requires Words(t) == [w] + Words(e)
    requires RStrip(CollapseSpace(e)) == Join(Words(e), " ")
    ensures RStrip(CollapseSpace(t)) == Join(Words(t), " ")
  {
    CollapseSpaceShape(e);
    RStripAfter(w + [' '], CollapseSpace(e));
    NonEmptyWords(e);
    JoinCons(w, Words(e));
  }

  /** For a text that starts with a non-space, rstrip() of the collapse is the words joined by ' '. */
  lemma {:induction false} CollapseIsJoin(t: string)
    requires t == [] || !IsSpace(t[0])
    ensures RStrip(CollapseSpace(t)) == Join(Words(t), " ")
    decreases |t|
  {
    if t != [] {
      var w, sp, e := SplitFirstWord(t);
      if e == [] {
        CollapseIsJoinLast(t, w, sp);
      } else {
        CollapseIsJoin(e);
        CollapseIsJoinStep(t, w, e);
      }
    }
  }

  /** A text with a non-space character has at least one word. */
  lemma NonEmptyWords(e: string)
    requires e != [] && !IsSpace(e[0])
    ensures Words(e) != []
  {
    assert LStrip(e) == e;
  }

  /** Leading whitespace can be stripped before or after the collapse alike. */
  lemma LStripCollapse(text: string)
    ensures LStrip(CollapseSpace(text)) == CollapseSpace(LStrip(text))
  {
    var t := LStrip(text);
    CollapseSpaceShape(t);
    if text != [] && IsSpace(text[0]) {
      assert LStrip(text[1..]) == t;
      LStripSpacePrefix([' '], CollapseSpace(t));
    }
  }

  /** clean_text_aws is ' '.join(text.split()): the words of the text, in order,
      separated by exactly one ' '. */
  lemma CleanTextAwsIsJoinOfWords(text: string)
    ensures CleanTextAws(text) == Join(Words(text), " ")
  {
    LStripCollapse(text);
    CollapseIsJoin(LStrip(text));
    WordsLStrip(text);
  }

  /** The whitespace collapse at a word boundary: a word, the whitespace run after
      it and the rest become the word, one ' ' and the collapse of the rest. */
  lemma CollapseSpaceWordRun(w: string, ws: string, rest: string)
    requires forall i :: 0 <= i < |w| ==> !IsSpace(w[i])
    requires ws != [] && AllSpace(ws)
    requires rest == [] || !IsSpace(rest[0])
    ensures CollapseSpace(w + ws + rest) == w + [' '] + CollapseSpace(rest)
  {
    assert w + ws + rest == w + (ws + rest);
    CollapseWord(w, ws + rest);
    CollapseRun(ws, rest);
  }

  /** A word and the whitespace run after it, at the end of a text. */
  lemma CollapseLastWord(w: string, trail: string)
    requires forall i :: 0 <= i < |w| ==> !IsSpace(w[i])
    requires trail != [] && AllSpace(trail)
    ensures CollapseSpace(w + trail) == w + [' ']
  {
    CollapseSpaceWordRun(w, trail, []);
    assert w + trail + [] == w + trail;
    assert w + [' '] + CollapseSpace([]) == w + [' '];
  }

  /** The collapse of a word, a whitespace run, a second word and trailing whitespace. */
  lemma CollapseWordsTail(w1: string, gap: string, w2: string, trail: string)
    requires gap != [] && AllSpace(gap) && trail != [] && AllSpace(trail)
    requires forall i :: 0 <= i < |w1| ==> !IsSpace(w1[i])
    requires w2 != [] && forall i :: 0 <= i < |w2| ==> !IsSpace(w2[i])
    ensures CollapseSpace(w1 + gap + (w2 + trail)) == w1 + [' '] + (w2 + [' '])
  {
    assert (w2 + trail)[0] == w2[0];
    CollapseSpaceWordRun(w1, gap, w2 + trail);
    CollapseLastWord(w2, trail);
  }

  /** Regrouping five concatenated pieces; a separate lemma keeps this step out of
      the solver's context in CollapseTwoWords, where it is too costly inline. */
  lemma Regroup(lead: string, w1: string, gap: string, w2: string, trail: string)
    ensures lead + w1 + gap + w2 + trail == lead + (w1 + gap + (w2 + trail))
  {
  }

  /** The collapse of two words with whitespace around and between them. */
  lemma CollapseTwoWords(lead: string, w1: string, gap: string, w2: string, trail: string)
    requires lead != [] && AllSpace(lead) && gap != [] && AllSpace(gap) && trail != [] && AllSpace(trail)
    requires w1 != [] && forall i :: 0 <= i < |w1| ==> !IsSpace(w1[i])
    requires w2 != [] && forall i :: 0 <= i < |w2| ==> !IsSpace(w2[i])
    ensures CollapseSpace(lead + w1 + gap + w2 + trail) == [' '] + (w1 + [' '] + (w2 + [' ']))
  {
    var rest := w1 + gap + (w2 + trail);
    Regroup(lead, w1, gap, w2, trail);
    CollapseWordsTail(w1, gap, w2, trail);
    assert rest[0] == w1[0];
    CollapseRun(lead, rest);
  }

  /** clean_text_aws on two words with whitespace around and between them: the
      words separated by a single ' '. */
  lemma CleanTextAwsTwoWords(lead: string, w1: string, gap: string, w2: string, trail: string)
    requires lead != [] && AllSpace(lead) && gap != [] && AllSpace(gap) && trail != [] && AllSpace(trail)
    requires w1 != [] && forall i :: 0 <= i < |w1| ==> !IsSpace(w1[i])
    requires w2 != [] && forall i :: 0 <= i < |w2| ==> !IsSpace(w2[i])
    ensures CleanTextAws(lead + w1 + gap + w2 + trail) == w1 + " " + w2
  {
    CollapseTwoWords(lead, w1, gap, w2, trail);
    var w := w1 + " " + w2;
    var x := w1 + [' '] + (w2 + [' ']);
    assert x == w + [' '];
    LStripSpacePrefix([' '], x);
    RStripSpaceSuffix(w, [' ']);
  }

  lemma ExampleWords()
    ensures AllSpace("  ") && AllSpace("   \t\n")
    ensures forall i :: 0 <= i < |"multiple"| ==> !IsSpace("multiple"[i])
    ensures forall i :: 0 <= i < |"spaces"| ==> !IsSpace("spaces"[i])
  {
  }

  /** clean_text_aws on "  multiple   \t\nspaces  ": the two leading spaces and
      the two trailing ones go, and the run of three spaces, a tab and a newline
      between the words becomes one ' '. */
  lemma CleanTextAwsExample()
    ensures CleanTextAws("  " + "multiple" + "   \t\n" + "spaces" + "  ") == "multiple spaces"
  {
    ExampleWords();
    CleanTextAwsTwoWords("  ", "multiple", "   \t\n", "spaces", "  ");
  }

  // ---------------------------------------------------------------------------
  // clean_text, lines 38-43 (the NFKC step of line 45 is a parameter, see CleanText)

  /** str.replace(from, to) for a one-character `from`: each occurrence becomes `to`. */
  function ReplaceChar(s: string, from: char, to: char): (r: string)
    ensures |r| == |s|
  {
    if s == [] then [] else [if s[0] == from then to else s[0]] + ReplaceChar(s[1..], from, to)
  }

  /** str.replace('\\n', ' '): each two-character text `\n` (backslash, 'n'),
      scanned left to right without overlap, becomes one ' '. */
  function ReplaceEscapedNewline(s: string): (r: string)
    ensures |r| <= |s|
    decreases |s|
  {
    if |s| >= 2 && s[0] == '\\' && s[1] == 'n' then
      [' '] + ReplaceEscapedNewline(s[2..])
    else if s == [] then
      []
    else
      [s[0]] + ReplaceEscapedNewline(s[1..])
  }

  /** After replace('\\n', ' ') no backslash-'n' pair is left, and every
      character of the result is either a ' ' or a character of the input. */
  lemma {:induction false} ReplaceEscapedNewlineShape(s: string)
    ensures NoEscapedNewline(ReplaceEscapedNewline(s))
    ensures forall i :: 0 <= i < |ReplaceEscapedNewline(s)| ==>
      ReplaceEscapedNewline(s)[i] == ' ' || ReplaceEscapedNewline(s)[i] in s
    ensures ReplaceEscapedNewline(s) != [] ==> ReplaceEscapedNewline(s)[0] == ' ' || ReplaceEscapedNewline(s)[0] == s[0]
    decreases |s|
  {
    if |s| >= 2 && s[0] == '\\' && s[1] == 'n' {
      ReplaceEscapedNewlineShape(s[2..]);
      var r := ReplaceEscapedNewline(s);
      forall i | 0 <= i < |r| ensures r[i] == ' ' || r[i] in s {
        if i > 0 {
          assert r[i] == ReplaceEscapedNewline(s[2..])[i - 1];
        }
      }
    } else if s != [] {
      ReplaceEscapedNewlineShape(s[1..]);
      var r := ReplaceEscapedNewline(s);
      forall i | 0 <= i < |r| ensures r[i] == ' ' || r[i] in s {
        if i > 0 {
          assert r[i] == ReplaceEscapedNewline(s[1..])[i - 1];
        }
      }
    }
  }

  /** Without a backslash-'n' pair, replace('\\n', ' ') changes nothing. */
  lemma {:induction false} ReplaceEscapedNewlineFixes(s: string)
    requires NoEscapedNewline(s)
    ensures ReplaceEscapedNewline(s) == s
    decreases |s|
  {
    if s != [] {
      assert NoEscapedNewline(s[1..]);
      ReplaceEscapedNewlineFixes(s[1..]);
    }
  }

  /** Lines 40-43: eight replacements, the first seven of a character by itself:
      the escape '\u201c' already is the one-character string U+201C that the
      file writes as the second argument, so both arguments of each of the first
      seven calls are the same code point. */
  function PunctuationChain(s: string): string
  {
    var t := ReplaceChar(ReplaceChar(s, '\U{201C}', '\U{201C}'), '\U{201D}', '\U{201D}');
    var u := ReplaceChar(ReplaceChar(t, '\U{2018}', '\U{2018}'), '\U{2019}', '\U{2019}');
    var v := ReplaceChar(ReplaceChar(u, '\U{2026}', '\U{2026}'), '\U{2013}', '\U{2013}');
    ReplaceChar(ReplaceChar(v, '\U{2014}', '\U{2014}'), Nbsp, ' ')
  }

  /** Line 38: each newline and each backslash-'n' pair becomes ' ', then the ends are stripped. */
  function StripNewlines(text: string): string
  {
    Strip(ReplaceEscapedNewline(ReplaceChar(text, '\n', ' ')))
  }

  /** clean_text up to, not including, its NFKC normalisation (scraper.py:38-43). */
  function CleanTextPreNfkc(text: string): string
  {
    PunctuationChain(StripNewlines(text))
  }

  /** clean_text (scraper.py:36-46); `nfkc` stands for unicodedata.normalize('NFKC', _). */
  function CleanText(nfkc: string -> string, text: string): string
  {
    nfkc(CleanTextPreNfkc(text))
  }

  /** clean_text as a value, for the loops that apply it to each container's text. */
  function Cleaner(nfkc: string -> string): string -> string
  {
    t => CleanText(nfkc, t)
  }

  /** Each occurrence of `from` becomes `to`; every other character stays where it was. */
  lemma {:induction false} ReplaceCharAt(s: string, from: char, to: char)
    ensures forall i :: 0 <= i < |s| ==> ReplaceChar(s, from, to)[i] == (if s[i] == from then to else s[i])
    decreases |s|
  {
    if s != [] {
      ReplaceCharAt(s[1..], from, to);
    }
  }

  /** Replacing a character by itself is the identity. */
  lemma {:induction false} ReplaceCharSelf(s: string, c: char)
    ensures ReplaceChar(s, c, c) == s
    decreases |s|
  {
    if s != [] {
      ReplaceCharSelf(s[1..], c);
    }
  }

  /** Replacing a character that does not occur is the identity. */
  lemma {:induction false} ReplaceCharAbsent(s: string, from: char, to: char)
    requires from !in s
    ensures ReplaceChar(s, from, to) == s
    decreases |s|
  {
    if s != [] {
      assert from !in s[1..];
      ReplaceCharAbsent(s[1..], from, to);
    }
  }

  /** A one-character replace works on the two halves of a text independently. */
  lemma {:induction false} ReplaceCharConcat(a: string, b: string, from: char, to: char)
    ensures ReplaceChar(a + b, from, to) == ReplaceChar(a, from, to) + ReplaceChar(b, from, to)
    decreases |a|
  {
    if a == [] {
      assert a + b == b;
    } else {
      assert (a + b)[1..] == a[1..] + b;
      ReplaceCharConcat(a[1..], b, from, to);
    }
  }

  /** replace('\\n', ' ') works on the two halves of a text independently when
      the first half does not end in a backslash, since then no pair straddles them. */
  lemma {:induction false} ReplaceEscapedNewlineConcat(a: string, b: string)
    requires a == [] || a[|a| - 1] != '\\'
    ensures ReplaceEscapedNewline(a + b) == ReplaceEscapedNewline(a) + ReplaceEscapedNewline(b)
    decreases |a|
  {
    if a == [] {
      assert a + b == b;
    } else if |a| >= 2 && a[0] == '\\' && a[1] == 'n' {
      assert (a + b)[2..] == a[2..] + b;
      ReplaceEscapedNewlineConcat(a[2..], b);
    } else {
      assert (a + b)[1..] == a[1..] + b;
      ReplaceEscapedNewlineConcat(a[1..], b);
    }
  }

  /** Of the replacement chain on lines 40-43 only the last call does anything:
      it turns every NBSP into ' ' and leaves every other character alone. */
  lemma PunctuationChainIsNbspToSpace(s: string)
    ensures PunctuationChain(s) == ReplaceChar(s, Nbsp, ' ')
    ensures |PunctuationChain(s)| == |s|
    ensures forall i :: 0 <= i < |s| ==> PunctuationChain(s)[i] == (if s[i] == Nbsp then ' ' else s[i])
  {
    ReplaceCharSelf(s, '\U{201C}');
    ReplaceCharSelf(s, '\U{201D}');
    ReplaceCharSelf(s, '\U{2018}');
    ReplaceCharSelf(s, '\U{2019}');
    ReplaceCharSelf(s, '\U{2026}');
    ReplaceCharSelf(s, '\U{2013}');
    ReplaceCharSelf(s, '\U{2014}');
    ReplaceCharAt(s, Nbsp, ' ');
  }

  /** Line 38 leaves no newline, no backslash-'n' pair and no whitespace at
      either end, and never lengthens the text. */
  lemma StripNewlinesShape(text: string)
    ensures '\n' !in StripNewlines(text)
    ensures NoEscapedNewline(StripNewlines(text))
    ensures Trimmed(StripNewlines(text))
    ensures |StripNewlines(text)| <= |text|
  {
    var a := ReplaceChar(text, '\n', ' ');
    ReplaceCharAt(text, '\n', ' ');
    var b := ReplaceEscapedNewline(a);
    ReplaceEscapedNewlineShape(a);
    assert '\n' !in b;
    var c := Strip(b);
    var k := StripSlice(b);
    forall i | 0 <= i < |c| ensures c[i] == b[k + i] { }
  }

  /** What lines 38-43 guarantee: no newline, no backslash-'n' pair, no
      whitespace at either end, no NBSP, and never longer than the input. */
  lemma CleanTextPreNfkcShape(text: string)
    ensures '\n' !in CleanTextPreNfkc(text)
    ensures NoEscapedNewline(CleanTextPreNfkc(text))
    ensures Trimmed(CleanTextPreNfkc(text))
    ensures Nbsp !in CleanTextPreNfkc(text)
    ensures |CleanTextPreNfkc(text)| <= |text|
  {
    var c := StripNewlines(text);
    StripNewlinesShape(text);
    var d := PunctuationChain(c);
    PunctuationChainIsNbspToSpace(c);
    forall i | 0 <= i < |d|
      ensures d[i] != '\n' && d[i] != Nbsp
      ensures (d[i] == '\\') == (c[i] == '\\') && (d[i] == 'n') == (c[i] == 'n')
    {
    }
    assert Trimmed(d) by {
      if d != [] {
        assert d[0] == c[0] && d[|d| - 1] == c[|c| - 1];
      }
    }
  }

  /** Without an NBSP, lines 40-43 change nothing. */
  lemma PunctuationChainFixes(t: string)
    requires Nbsp !in t
    ensures PunctuationChain(t) == t
  {
    PunctuationChainIsNbspToSpace(t);
    ReplaceCharAbsent(t, Nbsp, ' ');
  }

  /** A text that is trimmed and holds no newline, no backslash-'n' pair and no
      NBSP passes through lines 38-43 unchanged. */
  lemma CleanTextPreNfkcFixes(t: string)
    requires '\n' !in t && NoEscapedNewline(t) && Trimmed(t) && Nbsp !in t
    ensures CleanTextPreNfkc(t) == t
  {
    ReplaceCharAbsent(t, '\n', ' ');
    ReplaceEscapedNewlineFixes(t);
    assert StripNewlines(t) == t;
    PunctuationChainFixes(t);
  }

  /** The pre-NFKC part of clean_text applied to its own output changes nothing. */
  lemma CleanTextPreNfkcIdempotent(text: string)
    ensures CleanTextPreNfkc(CleanTextPreNfkc(text)) == CleanTextPreNfkc(text)
  {
    CleanTextPreNfkcShape(text);
    CleanTextPreNfkcFixes(CleanTextPreNfkc(text));
  }

  /** A piece of text that lines 38-43 leave alone when it sits between other
      pieces: no newline, no NBSP, no backslash-'n' pair, and no backslash at its
      end that could pair with what follows. */
  predicate Plain(x: string)
  {
    '\n' !in x && Nbsp !in x && NoEscapedNewline(x) && (x == [] || x[|x| - 1] != '\\')
  }

  /** Line 38's first replace on three plain pieces joined by a newline and a backslash-'n' pair. */
  lemma NewlinesBetween(a: string, b: string, c: string)
    requires Plain(a) && Plain(b) && Plain(c)
    ensures ReplaceChar(a + "\n" + b + "\\n" + c, '\n', ' ') == a + " " + b + "\\n" + c
  {
    var x := a + "\n";
    assert ReplaceChar(x, '\n', ' ') == a + " " by {
      ReplaceCharConcat(a, "\n", '\n', ' ');
      ReplaceCharAbsent(a, '\n', ' ');
    }
    var y := x + b;
    assert ReplaceChar(y, '\n', ' ') == a + " " + b by {
      ReplaceCharConcat(x, b, '\n', ' ');
      ReplaceCharAbsent(b, '\n', ' ');
    }
    var z := y + "\\n";
    assert ReplaceChar(z, '\n', ' ') == a + " " + b + "\\n" by {
      ReplaceCharConcat(y, "\\n", '\n', ' ');
      ReplaceCharAbsent("\\n", '\n', ' ');
    }
    assert ReplaceChar(z + c, '\n', ' ') == a + " " + b + "\\n" + c by {
      ReplaceCharConcat(z, c, '\n', ' ');
      ReplaceCharAbsent(c, '\n', ' ');
    }
  }

  /** Line 38's second replace on the same pieces, now joined by a ' ' and a backslash-'n' pair. */
  lemma EscapedNewlineBetween(a: string, b: string, c: string)
    requires Plain(a) && Plain(b) && Plain(c)
    ensures ReplaceEscapedNewline(a + " " + b + "\\n" + c) == a + " " + b + " " + c
  {
    var x := a + " ";
    assert ReplaceEscapedNewline(x) == a + " " by {
      ReplaceEscapedNewlineConcat(a, " ");
      ReplaceEscapedNewlineFixes(a);
    }
    var y := x + b;
    assert ReplaceEscapedNewline(y) == a + " " + b by {
      ReplaceEscapedNewlineConcat(x, b);
      ReplaceEscapedNewlineFixes(b);
    }
    var z := y + "\\n";
    assert ReplaceEscapedNewline(z) == a + " " + b + " " by {
      assert y[|y| - 1] != '\\';
      ReplaceEscapedNewlineConcat(y, "\\n");
    }
    assert ReplaceEscapedNewline(z + c) == a + " " + b + " " + c by {
      ReplaceEscapedNewlineConcat(z, c);
      ReplaceEscapedNewlineFixes(c);
    }
  }

  /** Lines 38-43 on three plain pieces, the first starting and the last ending
      with a non-space, joined by a newline and by a backslash-'n' pair: each
      separator becomes exactly one ' ' and the pieces are kept as they are. */
  lemma CleanTextPreNfkcSeparators(a: string, b: string, c: string)
    requires Plain(a) && Plain(b) && Plain(c)
    requires a != [] && !IsSpace(a[0]) && c != [] && !IsSpace(c[|c| - 1])
    ensures CleanTextPreNfkc(a + "\n" + b + "\\n" + c) == a + " " + b + " " + c
  {
    NewlinesBetween(a, b, c);
    EscapedNewlineBetween(a, b, c);
    var t := a + " " + b + " " + c;
    assert t[0] == a[0] && t[|t| - 1] == c[|c| - 1];
    assert Trimmed(t);
    assert Nbsp !in t;
    PunctuationChainFixes(t);
  }

  lemma ExamplePiecesPlain()
    ensures Plain("Hello") && Plain("world") && Plain("  test")
    ensures !IsSpace('H') && !IsSpace('t')
  {
  }

  /** Lines 38-43 on "Hello\nworld\\n  test": the
      newline and the backslash-'n' pair each become one ' ', and the two spaces
      after the pair are kept, so three spaces stand between "world" and "test". */
  lemma CleanTextPreNfkcExample()
    ensures CleanTextPreNfkc("Hello" + "\n" + "world" + "\\n" + "  test") == "Hello world   test"
  {
    ExamplePiecesPlain();
    CleanTextPreNfkcSeparators("Hello", "world", "  test");
  }

  /** The whole of clean_text is not idempotent: NFKC maps U+00A8 DIAERESIS to a
      space followed by U+0308 COMBINING DIAERESIS and leaves a lone U+0308 as it
      is, so a second pass strips the space the first pass produced. */
  lemma CleanTextNotIdempotent(nfkc: string -> string)
    requires nfkc(['\U{A8}']) == [' ', '\U{308}']
    requires nfkc(['\U{308}']) == ['\U{308}']
    ensures CleanText(nfkc, CleanText(nfkc, ['\U{A8}'])) != CleanText(nfkc, ['\U{A8}'])
  {
    PreNfkcOfDiaeresis();
    PreNfkcOfSpacedMark();
  }

  lemma PreNfkcOfDiaeresis()
    ensures CleanTextPreNfkc(['\U{A8}']) == ['\U{A8}']
  {
    var t: string := ['\U{A8}'];
    assert !IsSpace(t[0]);
    assert Trimmed(t);
    CleanTextPreNfkcFixes(t);
  }

  lemma PreNfkcOfSpacedMark()
    ensures CleanTextPreNfkc([' ', '\U{308}']) == ['\U{308}']
  {
    var mark: string := ['\U{308}'];
    var spaced: string := [' ', '\U{308}'];
    ReplaceCharAbsent(spaced, '\n', ' ');
    assert NoEscapedNewline(spaced);
    assert spaced[1..] == mark;
    assert !IsSpace(mark[0]);
    assert ReplaceEscapedNewline(spaced) == spaced;
    assert LStrip(spaced) == mark;
    assert RStrip(mark) == mark;
    assert Strip(spaced) == mark;
    assert StripNewlines(spaced) == mark;
    PunctuationChainFixes(mark);
  }
}
