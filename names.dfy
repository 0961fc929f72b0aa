/**
 * Instructor-name handling of the content script: the normalisation applied
 * to an instructor cell's text before it is used as a cache key and a search
 * query, and the test that decides whether a cell names an instructor at all.
 *
 * The two regular-expression replacements of the source are written out as
 * left-to-right scans: `StripGroups` is `replace(/\([^)]*\)/g, '')` and
 * `CollapseSpaces` is `replace(/\s+/g, ' ')`.
 */
module Names {

  /** ECMAScript WhiteSpace and LineTerminator code points: both the set `\s`
      matches and the set `String.prototype.trim` removes. */
  const SpaceCodes: set<int> := {
    0x09, 0x0A, 0x0B, 0x0C, 0x0D, 0x20, 0xA0, 0x1680,
    0x2000, 0x2001, 0x2002, 0x2003, 0x2004, 0x2005, 0x2006, 0x2007, 0x2008, 0x2009, 0x200A,
    0x2028, 0x2029, 0x202F, 0x205F, 0x3000, 0xFEFF
  }

  predicate IsSpace(c: char) {
    c as int in SpaceCodes
  }

  /** Removes leading whitespace. */
  function TrimStart(s: string): (r: string)
    ensures |r| <= |s|
  {
    if s == [] || !IsSpace(s[0]) then s else TrimStart(s[1..])
  }

  /** Removes trailing whitespace. */
  function TrimEnd(s: string): string {
    if s == [] || !IsSpace(s[|s| - 1]) then s else TrimEnd(s[..|s| - 1])
  }

  /** `TrimStart` keeps a suffix that does not start with whitespace. */
  lemma {:induction false} TrimStartSuffix(s: string)
    ensures TrimStart(s) == s[|s| - |TrimStart(s)|..]
    ensures TrimStart(s) == [] || !IsSpace(TrimStart(s)[0])
    decreases |s|
  {
    if s != [] && IsSpace(s[0]) {
      TrimStartSuffix(s[1..]);
    }
  }

  /** `TrimEnd` keeps a prefix that does not end with whitespace. */
  lemma {:induction false} TrimEndPrefix(s: string)
    ensures |TrimEnd(s)| <= |s| && TrimEnd(s) == s[..|TrimEnd(s)|]
    ensures TrimEnd(s) == [] || !IsSpace(TrimEnd(s)[|TrimEnd(s)| - 1])
    decreases |s|
  {
    if s != [] && IsSpace(s[|s| - 1]) {
      TrimEndPrefix(s[..|s| - 1]);
    }
  }

  /** Only whitespace is cut off at the start. */
  lemma {:induction false} TrimStartCutsSpaces(s: string)
    ensures forall i :: 0 <= i < |s| - |TrimStart(s)| ==> IsSpace(s[i])
    decreases |s|
  {
    if s != [] && IsSpace(s[0]) {
      TrimStartCutsSpaces(s[1..]);
      forall i | 1 <= i < |s| - |TrimStart(s)| ensures IsSpace(s[i]) {
        assert s[i] == s[1..][i - 1];
      }
    }
  }

  /** Only whitespace is cut off at the end. */
  lemma {:induction false} TrimEndCutsSpaces(s: string)
    ensures forall i :: |TrimEnd(s)| <= i < |s| ==> IsSpace(s[i])
    decreases |s|
  {
    if s != [] && IsSpace(s[|s| - 1]) {
      TrimEndCutsSpaces(s[..|s| - 1]);
    }
  }

  /** `String.prototype.trim`. */
  function Trim(s: string): (r: string)
    ensures |r| <= |s|
    ensures r == [] || (!IsSpace(r[0]) && !IsSpace(r[|r| - 1]))
  {
    TrimStartSuffix(s);
    TrimEndPrefix(TrimStart(s));
    var r := TrimEnd(TrimStart(s));
    assert r != [] ==> r[0] == TrimStart(s)[0];
    r
  }

  /** Index of the first `c` in `s`. */
  function IndexOf(s: string, c: char): (k: nat)
    requires c in s
    ensures k < |s| && s[k] == c && c !in s[..k]
  {
    if s[0] == c then 0 else 1 + IndexOf(s[1..], c)
  }

  /** `replace(/\([^)]*\)/g, '')`. At each position the pattern matches an
      opening parenthesis followed by everything up to the first closing one;
      when no closing parenthesis follows, the opening one is kept and the
      scan moves on by one character. */
  function StripGroups(s: string): (r: string)
    ensures |r| <= |s|
    decreases |s|
  {
    if s == [] then []
    else if s[0] == '(' && ')' in s then StripGroups(s[IndexOf(s, ')') + 1..])
    else [s[0]] + StripGroups(s[1..])
  }

  /** `replace(/\s+/g, ' ')`: every maximal run of whitespace becomes one
      space character. */
  function CollapseSpaces(s: string): (r: string)
    ensures |r| <= |s|
    decreases |s|
  {
    if s == [] then []
    else if IsSpace(s[0]) then [' '] + CollapseSpaces(TrimStart(s[1..]))
    else [s[0]] + CollapseSpaces(s[1..])
  }

  /** `extractProfessorName`: parenthetical groups removed, trimmed,
      whitespace runs collapsed, trimmed again. */
  function ExtractProfessorName(text: string): (name: string)
    ensures |name| <= |text|
    ensures name == [] || (!IsSpace(name[0]) && !IsSpace(name[|name| - 1]))
  {
    Trim(CollapseSpaces(Trim(StripGroups(text))))
  }

  /** No opening parenthesis is followed, anywhere later, by a closing one. */
  ghost predicate NoGroup(s: string) {
    forall i, j :: 0 <= i < j < |s| && s[i] == '(' ==> s[j] != ')'
  }

  /** Every whitespace character is a plain space and no two are adjacent. */
  ghost predicate SingleSpaced(s: string) {
    && (forall i :: 0 <= i < |s| && IsSpace(s[i]) ==> s[i] == ' ')
    && (forall i :: 0 <= i < |s| - 1 && IsSpace(s[i]) ==> !IsSpace(s[i + 1]))
  }

  /** Single-spaced, with no whitespace at either end. */
  ghost predicate Tidy(s: string) {
    SingleSpaced(s) && (s != [] ==> !IsSpace(s[0]) && !IsSpace(s[|s| - 1]))
  }

  // ---------------------------------------------------------------------
  // Parenthetical groups

  lemma {:induction false} StripGroupsKeepsAbsent(s: string, c: char)
    requires c !in s
    ensures c !in StripGroups(s)
    decreases |s|
  {
    if s == [] {
    } else if s[0] == '(' && ')' in s {
      StripGroupsKeepsAbsent(s[IndexOf(s, ')') + 1..], c);
    } else {
      StripGroupsKeepsAbsent(s[1..], c);
    }
  }

  lemma {:induction false} StripGroupsNoClose(s: string)
    requires ')' !in s
    ensures StripGroups(s) == s
    decreases |s|
  {
    if s != [] {
      assert ')' !in s[1..];
      StripGroupsNoClose(s[1..]);
    }
  }

  lemma ConsNoGroup(c: char, t: string)
    requires NoGroup(t)
    requires c == '(' ==> ')' !in t
    ensures NoGroup([c] + t)
  {
  }

  /** After the first pass no parenthetical group is left. */
  lemma {:induction false} StripGroupsNoGroup(s: string)
    ensures NoGroup(StripGroups(s))
    decreases |s|
  {
    if s == [] {
    } else if s[0] == '(' && ')' in s {
      StripGroupsNoGroup(s[IndexOf(s, ')') + 1..]);
    } else {
      StripGroupsNoGroup(s[1..]);
      if s[0] == '(' {
        assert ')' !in s[1..];
        StripGroupsKeepsAbsent(s[1..], ')');
      }
      ConsNoGroup(s[0], StripGroups(s[1..]));
    }
  }

  lemma OpenedNoClose(s: string)
    requires NoGroup(s) && s != [] && s[0] == '('
    ensures ')' !in s && ')' !in s[1..]
  {
  }

  /** Text that has no group is left as it is by the first pass. */
  lemma {:induction false} StripGroupsFixed(s: string)
    requires NoGroup(s)
    ensures StripGroups(s) == s
    decreases |s|
  {
    if s != [] {
      if s[0] == '(' {
        OpenedNoClose(s);
        StripGroupsNoClose(s);
      } else {
        SuffixNoGroup(s, 1);
        StripGroupsFixed(s[1..]);
        assert StripGroups(s) == [s[0]] + StripGroups(s[1..]);
        assert [s[0]] + s[1..] == s;
      }
    }
  }

  /** A group that opens after text without an opening parenthesis is
      removed as a whole, whatever it contains apart from a closing
      parenthesis: "Jane Smith (P)" loses its "(P)". */
  lemma {:induction false} IndexOfAfter(p: string, c: char, rest: string)
    requires c !in p
    ensures c in p + [c] + rest && IndexOf(p + [c] + rest, c) == |p|
    decreases |p|
  {
    var s := p + [c] + rest;
    assert s[|p|] == c;
    if p != [] {
      assert s[0] == p[0] && s[1..] == p[1..] + [c] + rest;
      IndexOfAfter(p[1..], c, rest);
    }
  }

  lemma LeadingGroupDropped(b: string, c: string)
    requires ')' !in b
    ensures StripGroups(['('] + b + [')'] + c) == StripGroups(c)
  {
    var p := ['('] + b;
    var s := p + [')'] + c;
    IndexOfAfter(p, ')', c);
    assert s[0] == '(';
    assert s[|p| + 1..] == c;
  }

  lemma {:induction false} StripGroupsRemovesGroup(a: string, b: string, c: string)
    requires '(' !in a && ')' !in b
    ensures StripGroups(a + ['('] + b + [')'] + c) == a + StripGroups(c)
    decreases |a|
  {
    var g := ['('] + b + [')'];
    var s := a + (g + c);
    assert a + ['('] + b + [')'] + c == s;
    if a == [] {
      assert s == g + c;
      LeadingGroupDropped(b, c);
    } else {
      assert s[0] == a[0] && s[0] != '(';
      assert s[1..] == a[1..] + (g + c);
      assert a[1..] + ['('] + b + [')'] + c == a[1..] + (g + c);
      StripGroupsRemovesGroup(a[1..], b, c);
      assert StripGroups(s) == [a[0]] + StripGroups(s[1..]);
      assert a == [a[0]] + a[1..];
    }
  }

  // ---------------------------------------------------------------------
  // Whitespace

  lemma SuffixAbsent(s: string, k: nat, c: char)
    requires c !in s && k <= |s|
    ensures c !in s[k..]
  {
  }

  lemma {:induction false} CollapseKeepsAbsent(s: string, c: char)
    requires c !in s && !IsSpace(c)
    ensures c !in CollapseSpaces(s)
    decreases |s|
  {
    if s != [] {
      if IsSpace(s[0]) {
        var t := TrimStart(s[1..]);
        var k := |s| - |t|;
        TrimStartSuffix(s[1..]);
        assert s[1..][k - 1..] == s[k..];
        SuffixAbsent(s, k, c);
        CollapseKeepsAbsent(t, c);
        assert CollapseSpaces(s) == [' '] + CollapseSpaces(t);
      } else {
        SuffixAbsent(s, 1, c);
        CollapseKeepsAbsent(s[1..], c);
        assert CollapseSpaces(s) == [s[0]] + CollapseSpaces(s[1..]);
      }
    }
  }

  lemma SuffixNoGroup(s: string, k: nat)
    requires NoGroup(s) && k <= |s|
    ensures NoGroup(s[k..])
  {
  }

  lemma SliceNoGroup(s: string, lo: nat, hi: nat)
    requires NoGroup(s) && lo <= hi <= |s|
    ensures NoGroup(s[lo..hi])
  {
  }

  /** Collapsing whitespace cannot create a group. */
  lemma {:induction false} CollapseNoGroup(s: string)
    requires NoGroup(s)
    ensures NoGroup(CollapseSpaces(s))
    decreases |s|
  {
    if s == [] {
    } else if IsSpace(s[0]) {
      var t := TrimStart(s[1..]);
      SuffixNoGroup(s, |s| - |t|);
      TrimStartSuffix(s[1..]);
      assert s[1..][|s| - 1 - |t|..] == s[|s| - |t|..];
      CollapseNoGroup(t);
      ConsNoGroup(' ', CollapseSpaces(t));
    } else {
      SuffixNoGroup(s, 1);
      CollapseNoGroup(s[1..]);
      if s[0] == '(' {
        OpenedNoClose(s);
        CollapseKeepsAbsent(s[1..], ')');
      }
      ConsNoGroup(s[0], CollapseSpaces(s[1..]));
    }
  }

  lemma ConsSingleSpaced(c: char, t: string)
    requires SingleSpaced(t)
    requires IsSpace(c) ==> c == ' ' && (t != [] ==> !IsSpace(t[0]))
    ensures SingleSpaced([c] + t)
  {
  }

  /** After the second pass every whitespace character is a single space,
      and a collapsed run starts only where the text had whitespace. */
  lemma {:induction false} CollapseSingleSpaced(s: string)
    ensures SingleSpaced(CollapseSpaces(s))
    ensures CollapseSpaces(s) != [] ==> (IsSpace(CollapseSpaces(s)[0]) <==> IsSpace(s[0]))
    decreases |s|
  {
    if s == [] {
    } else if IsSpace(s[0]) {
      var t := TrimStart(s[1..]);
      TrimStartSuffix(s[1..]);
      CollapseSingleSpaced(t);
      ConsSingleSpaced(' ', CollapseSpaces(t));
    } else {
      CollapseSingleSpaced(s[1..]);
      ConsSingleSpaced(s[0], CollapseSpaces(s[1..]));
    }
  }

  lemma SliceSingleSpaced(s: string, lo: nat, hi: nat)
    requires SingleSpaced(s) && lo <= hi <= |s|
    ensures SingleSpaced(s[lo..hi])
  {
  }

  /** Trimming keeps a contiguous slice of its input. */
  lemma TrimIsSlice(s: string) returns (lo: nat, hi: nat)
    ensures lo <= hi <= |s| && Trim(s) == s[lo..hi]
    ensures Trim(s) == [] || (!IsSpace(Trim(s)[0]) && !IsSpace(Trim(s)[|Trim(s)| - 1]))
  {
    var t := TrimStart(s);
    var u := TrimEnd(t);
    TrimStartSuffix(s);
    TrimEndPrefix(t);
    assert Trim(s) == u;
    lo := |s| - |t|;
    hi := lo + |u|;
    assert u == s[lo..hi] by {
      forall i | 0 <= i < |u| ensures u[i] == s[lo + i] {
        assert u[i] == t[i] && t[i] == s[lo + i];
      }
    }
    assert u != [] ==> u[0] == t[0];
  }

  lemma TrimFixed(s: string)
    requires s == [] || (!IsSpace(s[0]) && !IsSpace(s[|s| - 1]))
    ensures Trim(s) == s
  {
  }

  lemma {:induction false} CollapseFixed(s: string)
    requires SingleSpaced(s)
    ensures CollapseSpaces(s) == s
    decreases |s|
  {
    if s != [] {
      var t := s[1..];
      SliceSingleSpaced(s, 1, |s|);
      assert t == s[1..|s|];
      CollapseFixed(t);
      if IsSpace(s[0]) {
        assert s[0] == ' ';
        assert t == [] || !IsSpace(t[0]) by {
          if t != [] {
            assert t[0] == s[1];
          }
        }
        assert TrimStart(t) == t;
        assert CollapseSpaces(s) == [' '] + CollapseSpaces(t);
      } else {
        assert CollapseSpaces(s) == [s[0]] + CollapseSpaces(t);
      }
      assert [s[0]] + t == s;
    }
  }

  /** The non-whitespace characters of `s`, in order: its words run
      together. */
  function NonSpaces(s: string): (r: string)
    ensures |r| <= |s|
    decreases |s|
  {
    if s == [] then []
    else (if IsSpace(s[0]) then [] else [s[0]]) + NonSpaces(s[1..])
  }

  /** Leading whitespace holds no word character. */
  lemma {:induction false} TrimStartKeepsWords(s: string)
    ensures NonSpaces(TrimStart(s)) == NonSpaces(s)
    decreases |s|
  {
    if s != [] && IsSpace(s[0]) {
      TrimStartKeepsWords(s[1..]);
    }
  }

  /** Collapsing whitespace keeps every non-whitespace character, in order:
      no word is lost, cut or reordered. */
  lemma {:induction false} CollapseKeepsWords(s: string)
    ensures NonSpaces(CollapseSpaces(s)) == NonSpaces(s)
    decreases |s|
  {
    if s != [] {
      if IsSpace(s[0]) {
        var t := TrimStart(s[1..]);
        TrimStartKeepsWords(s[1..]);
        CollapseKeepsWords(t);
        var c := CollapseSpaces(t);
        assert ([' '] + c)[1..] == c;
        assert NonSpaces([' '] + c) == NonSpaces(c);
      } else {
        CollapseKeepsWords(s[1..]);
        var c := CollapseSpaces(s[1..]);
        assert ([s[0]] + c)[1..] == c;
        assert NonSpaces([s[0]] + c) == [s[0]] + NonSpaces(c);
      }
    }
  }

  /** A whitespace run followed by a word is cut off entirely. */
  lemma {:induction false} TrimStartRun(run: string, b: string)
    requires forall i :: 0 <= i < |run| ==> IsSpace(run[i])
    requires b == [] || !IsSpace(b[0])
    ensures TrimStart(run + b) == b
    decreases |run|
  {
    if run == [] {
      assert run + b == b;
    } else {
      assert (run + b)[1..] == run[1..] + b;
      TrimStartRun(run[1..], b);
    }
  }

  /** Leading whitespace of a text that ends in a word is cut inside that
      text. */
  lemma {:induction false} TrimStartAppend(u: string, rest: string)
    requires u != [] && !IsSpace(u[|u| - 1])
    ensures TrimStart(u + rest) == TrimStart(u) + rest
    decreases |u|
  {
    if IsSpace(u[0]) {
      assert (u + rest)[1..] == u[1..] + rest;
      TrimStartAppend(u[1..], rest);
    }
  }

  /** One step of the collapse: a whitespace character starts a run that
      becomes one space; any other character is kept. */
  lemma CollapseCons(c: char, t: string)
    ensures IsSpace(c) ==> CollapseSpaces([c] + t) == [' '] + CollapseSpaces(TrimStart(t))
    ensures !IsSpace(c) ==> CollapseSpaces([c] + t) == [c] + CollapseSpaces(t)
  {
    assert ([c] + t)[0] == c && ([c] + t)[1..] == t;
  }

  /** The text after the first character of `a` once its collapse step is
      taken: the rest of `a`, without leading whitespace when `a` starts with
      whitespace. */
  function AfterFirst(a: string): string
    requires a != []
  {
    if IsSpace(a[0]) then TrimStart(a[1..]) else a[1..]
  }

  /** The rest after the first step is shorter and still ends in a word. */
  lemma AfterFirstEndsInWord(a: string)
    requires a != [] && !IsSpace(a[|a| - 1])
    ensures |AfterFirst(a)| < |a|
    ensures AfterFirst(a) == [] || !IsSpace(AfterFirst(a)[|AfterFirst(a)| - 1])
  {
    if IsSpace(a[0]) {
      TrimStartSuffix(a[1..]);
    }
  }

  /** The first collapse step on `a` followed by more text is the step on
      `a` alone, when `a` ends in a word. */
  lemma CollapseHead(a: string, rest: string)
    requires a != [] && !IsSpace(a[|a| - 1])
    ensures CollapseSpaces(a + rest) == [if IsSpace(a[0]) then ' ' else a[0]] + CollapseSpaces(AfterFirst(a) + rest)
    ensures CollapseSpaces(a) == [if IsSpace(a[0]) then ' ' else a[0]] + CollapseSpaces(AfterFirst(a))
  {
    var u := a[1..];
    assert a == [a[0]] + u;
    assert a + rest == [a[0]] + (u + rest);
    CollapseCons(a[0], u);
    CollapseCons(a[0], u + rest);
    if IsSpace(a[0]) {
      TrimStartAppend(u, rest);
    }
  }

  /** A whitespace run at the front collapses to one space. */
  lemma CollapseRunAtStart(rest: string)
    requires rest != [] && IsSpace(rest[0])
    ensures CollapseSpaces(rest) == [' '] + CollapseSpaces(TrimStart(rest[1..]))
  {
    assert rest == [rest[0]] + rest[1..];
    CollapseCons(rest[0], rest[1..]);
  }

  /** One step of `CollapseBeforeRun`: what holds after the first character
      of `a` holds with it. */
  lemma CollapseBeforeRunStep(a: string, rest: string, x: string)
    requires a != [] && !IsSpace(a[|a| - 1])
    requires CollapseSpaces(AfterFirst(a) + rest) == CollapseSpaces(AfterFirst(a)) + [' '] + x
    ensures CollapseSpaces(a + rest) == CollapseSpaces(a) + [' '] + x
  {
    CollapseHead(a, rest);
    JoinAssoc([if IsSpace(a[0]) then ' ' else a[0]], CollapseSpaces(AfterFirst(a)), x);
  }

  lemma JoinAssoc(h: string, v: string, x: string)
    ensures h + (v + [' '] + x) == (h + v) + [' '] + x
  {
  }

  /** Text that ends in a word collapses on its own before a following
      whitespace run, which becomes one space. */
  lemma {:induction false} CollapseBeforeRun(a: string, rest: string)
    requires a == [] || !IsSpace(a[|a| - 1])
    requires rest != [] && IsSpace(rest[0])
    ensures CollapseSpaces(a + rest) == CollapseSpaces(a) + [' '] + CollapseSpaces(TrimStart(rest[1..]))
    decreases |a|
  {
    if a == [] {
      assert a + rest == rest;
      CollapseRunAtStart(rest);
    } else {
      AfterFirstEndsInWord(a);
      CollapseBeforeRun(AfterFirst(a), rest);
      CollapseBeforeRunStep(a, rest, CollapseSpaces(TrimStart(rest[1..])));
    }
  }

  /** A whitespace run followed by a word starts with whitespace, and
      everything after its first character up to the word is cut by
      `TrimStart`. */
  lemma RunThenWord(run: string, b: string)
    requires run != [] && forall i :: 0 <= i < |run| ==> IsSpace(run[i])
    requires b == [] || !IsSpace(b[0])
    ensures run + b != [] && IsSpace((run + b)[0]) && TrimStart((run + b)[1..]) == b
  {
    assert (run + b)[1..] == run[1..] + b;
    TrimStartRun(run[1..], b);
  }

  /** Between two words, a whitespace run of any length and kind becomes
      exactly one space, and the text on either side is collapsed on its
      own. */
  lemma CollapseRun(a: string, run: string, b: string)
    requires a == [] || !IsSpace(a[|a| - 1])
    requires run != [] && forall i :: 0 <= i < |run| ==> IsSpace(run[i])
    requires b == [] || !IsSpace(b[0])
    ensures CollapseSpaces(a + run + b) == CollapseSpaces(a) + [' '] + CollapseSpaces(b)
  {
    RunThenWord(run, b);
    CollapseBeforeRun(a, run + b);
    assert a + run + b == a + (run + b);
  }

  lemma {:induction false} NonSpacesAppend(s: string, t: string)
    ensures NonSpaces(s + t) == NonSpaces(s) + NonSpaces(t)
    decreases |s|
  {
    if s == [] {
      assert s + t == t;
    } else {
      assert (s + t)[0] == s[0] && (s + t)[1..] == s[1..] + t;
      NonSpacesAppend(s[1..], t);
    }
  }

  /** Trailing whitespace holds no word character. */
  lemma {:induction false} TrimEndKeepsWords(s: string)
    ensures NonSpaces(TrimEnd(s)) == NonSpaces(s)
    decreases |s|
  {
    if s != [] && IsSpace(s[|s| - 1]) {
      var p := s[..|s| - 1];
      TrimEndKeepsWords(p);
      assert s == p + [s[|s| - 1]];
      NonSpacesAppend(p, [s[|s| - 1]]);
      assert [s[|s| - 1]][1..] == [];
    }
  }

  // ---------------------------------------------------------------------
  // Properties of extractProfessorName

  /** Normalisation keeps every word: after the groups are removed, the
      non-whitespace characters are all kept, in order. */
  lemma ExtractKeepsWords(text: string)
    ensures NonSpaces(ExtractProfessorName(text)) == NonSpaces(StripGroups(text))
  {
    var a := StripGroups(text);
    TrimStartKeepsWords(a);
    TrimEndKeepsWords(TrimStart(a));
    var b := Trim(a);
    CollapseKeepsWords(b);
    var c := CollapseSpaces(b);
    TrimStartKeepsWords(c);
    TrimEndKeepsWords(TrimStart(c));
  }

  /** A word: non-empty, with no whitespace and no closing parenthesis. */
  ghost predicate Word(w: string) {
    w != [] && forall i :: 0 <= i < |w| ==> !IsSpace(w[i]) && w[i] != ')'
  }

  /** A word is its own collapse. */
  lemma WordCollapsed(w: string)
    requires Word(w)
    ensures CollapseSpaces(w) == w
  {
    CollapseFixed(w);
  }

  /** Two words around a whitespace run contain no closing parenthesis. */
  lemma WordsNoClose(first: string, run: string, last: string)
    requires Word(first) && Word(last)
    requires forall i :: 0 <= i < |run| ==> IsSpace(run[i])
    ensures ')' !in first + run + last
  {
    var s := first + run + last;
    assert !IsSpace(')');
    forall i | 0 <= i < |s| ensures s[i] != ')' {
      if i < |first| {
        assert s[i] == first[i];
      } else if i < |first| + |run| {
        assert s[i] == run[i - |first|];
      } else {
        assert s[i] == last[i - |first| - |run|];
      }
    }
  }

  /** Text that starts and ends with a word is its own trim. */
  lemma WordsTrimmed(first: string, mid: string, last: string)
    requires Word(first) && Word(last)
    ensures Trim(first + mid + last) == first + mid + last
  {
    var s := first + mid + last;
    assert s[0] == first[0] && s[|s| - 1] == last[|last| - 1];
    TrimFixed(s);
  }

  /** Two words separated by any run of whitespace come out separated by
      exactly one space: "Jane  Smith" and "Jane\tSmith" both give
      "Jane Smith". */
  lemma ExtractJoinsWords(first: string, run: string, last: string)
    requires Word(first) && Word(last)
    requires run != [] && forall i :: 0 <= i < |run| ==> IsSpace(run[i])
    ensures ExtractProfessorName(first + run + last) == first + " " + last
  {
    var s := first + run + last;
    assert StripGroups(s) == s by {
      WordsNoClose(first, run, last);
      StripGroupsNoClose(s);
    }
    assert Trim(s) == s by {
      WordsTrimmed(first, run, last);
    }
    assert CollapseSpaces(s) == first + " " + last by {
      assert first[|first| - 1] == first[|first| - 1] && !IsSpace(first[|first| - 1]);
      assert !IsSpace(last[0]);
      CollapseRun(first, run, last);
      WordCollapsed(first);
      WordCollapsed(last);
    }
    WordsTrimmed(first, " ", last);
  }

  /** The normalised name contains no parenthetical group and is tidy:
      no whitespace at either end and every whitespace run a single space. */
  lemma ExtractedIsClean(text: string)
    ensures NoGroup(ExtractProfessorName(text))
    ensures Tidy(ExtractProfessorName(text))
  {
    var a := StripGroups(text);
    StripGroupsNoGroup(text);
    var lo1, hi1 := TrimIsSlice(a);
    SliceNoGroup(a, lo1, hi1);
    var b := Trim(a);
    CollapseNoGroup(b);
    CollapseSingleSpaced(b);
    var c := CollapseSpaces(b);
    var lo2, hi2 := TrimIsSlice(c);
    SliceNoGroup(c, lo2, hi2);
    SliceSingleSpaced(c, lo2, hi2);
  }

  /** Clean text is its own normal form. */
  lemma CleanIsFixed(s: string)
    requires NoGroup(s) && Tidy(s)
    ensures StripGroups(s) == s && Trim(s) == s && CollapseSpaces(s) == s
    ensures ExtractProfessorName(s) == s
  {
    StripGroupsFixed(s);
    TrimFixed(s);
    CollapseFixed(s);
  }

  /** `extractProfessorName` is idempotent. */
  lemma ExtractIdempotent(text: string)
    ensures ExtractProfessorName(ExtractProfessorName(text)) == ExtractProfessorName(text)
  {
    ExtractedIsClean(text);
    CleanIsFixed(ExtractProfessorName(text));
  }

  /** Text made of letters and single inner spaces is clean. */
  lemma LettersAreClean(s: string)
    requires forall i :: 0 <= i < |s| ==> s[i] == ' ' || 'A' <= s[i] <= 'Z' || 'a' <= s[i] <= 'z'
    requires s != [] ==> s[0] != ' ' && s[|s| - 1] != ' '
    requires forall i :: 0 <= i < |s| - 1 && s[i] == ' ' ==> s[i + 1] != ' '
    ensures NoGroup(s) && Tidy(s)
  {
  }

  lemma MarkerStripped(name: string, marker: string)
    requires '(' !in name && ')' !in marker
    ensures StripGroups(name + " (" + marker + ")") == name + " "
  {
    assert name + " (" + marker + ")" == (name + " ") + ['('] + marker + [')'] + "";
    StripGroupsRemovesGroup(name + " ", marker, "");
  }

  lemma TrailingSpaceTrimmed(name: string)
    requires name == [] || (!IsSpace(name[0]) && !IsSpace(name[|name| - 1]))
    ensures Trim(name + " ") == name
  {
    var a := name + " ";
    assert IsSpace(a[|a| - 1]);
    if name == [] {
      assert TrimStart(a) == TrimStart(a[1..]);
      assert a[1..] == [];
    } else {
      assert a[0] == name[0];
      assert TrimStart(a) == a;
      assert a[..|a| - 1] == name;
      assert TrimEnd(a) == TrimEnd(name);
    }
  }

  /** A trailing parenthetical marker after a clean name is dropped
      entirely, together with the space before it: "Jane Smith (P)" becomes
      "Jane Smith". */
  lemma ExtractDropsMarker(name: string, marker: string)
    requires '(' !in name && ')' !in marker && Tidy(name)
    ensures ExtractProfessorName(name + " (" + marker + ")") == name
  {
    var text := name + " (" + marker + ")";
    MarkerStripped(name, marker);
    TrailingSpaceTrimmed(name);
    assert Trim(StripGroups(text)) == name;
    assert NoGroup(name) by {
      forall i | 0 <= i < |name| ensures name[i] != '(' {
        assert name[i] in name;
      }
    }
    CleanIsFixed(name);
  }

  // ---------------------------------------------------------------------
  // The instructor filter of findProfessorCells

  /** ASCII lower-casing of one character. For the "staff" test this agrees
      with `toLowerCase`: no character outside A-Z lowers to s, t, a or f. */
  function LowerChar(c: char): char {
    if 'A' <= c <= 'Z' then (c as int + 32) as char else c
  }

  /** The five characters of `s` from `i` on spell "staff" in any letter
      case. */
  predicate StaffAt(s: string, i: nat)
    requires i + 5 <= |s|
  {
    && LowerChar(s[i]) == 's' && LowerChar(s[i + 1]) == 't' && LowerChar(s[i + 2]) == 'a'
    && LowerChar(s[i + 3]) == 'f' && LowerChar(s[i + 4]) == 'f'
  }

  /** `s.toLowerCase().includes('staff')`. */
  predicate ContainsStaff(s: string)
    decreases |s|
  {
    |s| >= 5 && (StaffAt(s, 0) || ContainsStaff(s[1..]))
  }

  /** The condition a trimmed cell text must meet to be treated as an
      instructor name. */
  predicate IsInstructorName(text: string) {
    && text != ""
    && text != "TBA"
    && !ContainsStaff(text)
    && |text| > 2
  }

  /** "staff" in any letter case, wherever it occurs, is found. */
  lemma {:induction false} ContainsStaffAt(s: string, i: nat)
    requires i + 5 <= |s| && StaffAt(s, i)
    ensures ContainsStaff(s)
    decreases i
  {
    if i > 0 {
      assert StaffAt(s[1..], i - 1) by {
        assert s[1..][i - 1..i + 4] == s[i..i + 5];
      }
      ContainsStaffAt(s[1..], i - 1);
    }
  }

  /** Conversely, a text in which `ContainsStaff` holds has "staff" at some
      position. */
  lemma {:induction false} StaffFound(s: string) returns (i: nat)
    requires ContainsStaff(s)
    ensures i + 5 <= |s| && StaffAt(s, i)
    decreases |s|
  {
    if StaffAt(s, 0) {
      i := 0;
    } else {
      var j := StaffFound(s[1..]);
      assert s[1..][j..j + 5] == s[j + 1..j + 6];
      i := j + 1;
    }
  }

  /** The filter in full: a text is a name exactly when it is longer than
      two characters, is not "TBA", and spells "staff" in no letter case at
      no position. */
  lemma InstructorNameIff(text: string)
    ensures IsInstructorName(text) <==>
      && |text| > 2
      && text != "TBA"
      && (forall i :: 0 <= i && i + 5 <= |text| ==> !StaffAt(text, i))
  {
    if ContainsStaff(text) {
      var i := StaffFound(text);
    }
    forall i | 0 <= i && i + 5 <= |text| && StaffAt(text, i)
      ensures ContainsStaff(text)
    {
      ContainsStaffAt(text, i);
    }
  }

  /** A text with "staff" in it, in any letter case, is not a name. */
  lemma StaffRejected(a: string, staff: string, b: string)
    requires |staff| == 5 && StaffAt(staff, 0)
    ensures !IsInstructorName(a + staff + b)
  {
    var s := a + staff + b;
    assert s[|a|..|a| + 5] == staff;
    ContainsStaffAt(s, |a|);
  }

  /** A text without the letter f in either case has no "staff" in it. */
  lemma {:induction false} NoFNoStaff(s: string)
    requires forall i :: 0 <= i < |s| ==> s[i] != 'f' && s[i] != 'F'
    ensures !ContainsStaff(s)
    decreases |s|
  {
    if |s| >= 5 {
      assert s[3] != 'f' && s[3] != 'F';
      NoFNoStaff(s[1..]);
    }
  }

  /** A text of three or more characters without the letter f in either
      case passes the filter, unless it is "TBA". */
  lemma WithoutFPasses(text: string)
    requires |text| > 2 && text != "TBA"
    requires forall i :: 0 <= i < |text| ==> text[i] != 'f' && text[i] != 'F'
    ensures IsInstructorName(text)
  {
    NoFNoStaff(text);
  }

  /** Every accepted text is longer than two characters and only the
      upper-case placeholder "TBA" is rejected: "tba" passes the filter. */
  lemma InstructorNameBounds(text: string)
    ensures IsInstructorName(text) ==> |text| >= 3 && text != "TBA"
    ensures !IsInstructorName("TBA") && IsInstructorName("tba")
  {
    WithoutFPasses("tba");
  }
}
