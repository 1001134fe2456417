/**
 * Whitespace splitting as Python's argument-less `str.split()` performs it,
 * and joining tokens back together as `''.join` does.
 *
 * Strings are sequences of Unicode scalar values (`char` in unicode-char
 * mode), so a character outside the Basic Multilingual Plane is one element.
 * Lone surrogates, which a Python `str` can hold, are not scalar values.
 */
module StrSplit {

  /** The code points for which Python's `str.isspace()` holds, listed one
      by one: the characters of bidirectional class WS, B or S and those of
      general category Zs. */
  const WsTable: set<char> := {
    '\t', '\n', '\U{0B}', '\U{0C}', '\r', '\U{1C}', '\U{1D}', '\U{1E}', '\U{1F}', ' ',
    '\U{85}', '\U{A0}', '\U{1680}',
    '\U{2000}', '\U{2001}', '\U{2002}', '\U{2003}', '\U{2004}', '\U{2005}',
    '\U{2006}', '\U{2007}', '\U{2008}', '\U{2009}', '\U{200A}',
    '\U{2028}', '\U{2029}', '\U{202F}', '\U{205F}', '\U{3000}'
  }

  /** The whitespace test `str.split()` with no argument uses as its
      delimiter set, written as range checks. */
  predicate IsWs(c: char) {
    if c <= ' ' then
      || ('\t' <= c <= '\r')          // tab, line feed, vertical tab, form feed, carriage return
      || ('\U{1C}' <= c)              // file, group, record and unit separators, space
    else if c < '\U{85}' then
      false                           // the rest of ASCII
    else
      || c == '\U{85}'                        // next line
      || c == '\U{A0}'                        // no-break space
      || c == '\U{1680}'                      // ogham space mark
      || ('\U{2000}' <= c <= '\U{200A}')      // en quad .. hair space
      || c == '\U{2028}' || c == '\U{2029}'   // line and paragraph separators
      || c == '\U{202F}' || c == '\U{205F}' || c == '\U{3000}'
  }

  /** The range checks of `IsWs` accept exactly the listed code points. */
  lemma IsWsIsTable(c: char)
    ensures IsWs(c) <==> c in WsTable
  {
  }

  /** No character of `w` is whitespace. */
  predicate NoWs(w: string) {
    forall i :: 0 <= i < |w| ==> !IsWs(w[i])
  }

  /** Every character of `w` is whitespace (vacuously true of ""). */
  predicate AllWs(w: string) {
    forall i :: 0 <= i < |w| ==> IsWs(w[i])
  }

  /** A token as `str.split()` yields it: non-empty and free of whitespace. */
  predicate IsToken(w: string) {
    w != [] && NoWs(w)
  }

  /** The longest prefix of `s` that contains no whitespace. */
  function TakeWord(s: string): (w: string)
    ensures w <= s
    ensures NoWs(w)
    ensures |w| == |s| || IsWs(s[|w|])
  {
    if s == [] || IsWs(s[0]) then [] else [s[0]] + TakeWord(s[1..])
  }

  /** `s.split()`: the maximal runs of non-whitespace characters, in order.
      Runs of whitespace of any length act as one delimiter, and leading or
      trailing whitespace produces no empty token. */
  function Split(s: string): (words: seq<string>)
    ensures forall i :: 0 <= i < |words| ==> IsToken(words[i])
    decreases |s|
  {
    if s == [] then []
    else if IsWs(s[0]) then Split(s[1..])
    else
      var w := TakeWord(s);
      [w] + Split(s[|w|..])
  }

  /** `''.join(words)`: `sep.join` with the empty separator, so the words
      laid end to end, and whitespace-free if every word is. */
  function Concat(words: seq<string>): (s: string)
    ensures s == Join(words, [])
    ensures (forall i :: 0 <= i < |words| ==> NoWs(words[i])) ==> NoWs(s)
  {
    if words == [] then [] else words[0] + Concat(words[1..])
  }

  /** `sep.join(words)`. */
  function Join(words: seq<string>, sep: string): string {
    if words == [] then []
    else if |words| == 1 then words[0]
    else words[0] + sep + Join(words[1..], sep)
  }

  // ---------------------------------------------------------------------------
  // Reference definitions, written independently of Split

  /** `s` with every whitespace character deleted. */
  function RemoveWs(s: string): string {
    if s == [] then [] else (if IsWs(s[0]) then [] else [s[0]]) + RemoveWs(s[1..])
  }

  /** The number of whitespace characters in `s`. */
  function WsCount(s: string): nat {
    if s == [] then 0 else (if IsWs(s[0]) then 1 else 0) + WsCount(s[1..])
  }

  /** The number of maximal non-whitespace runs in `s`, counted as a scanner
      does: a run begins at each non-whitespace character that comes first or
      follows whitespace. `afterWs` says whether the previous character was
      whitespace (or there was none). */
  function RunCount(s: string, afterWs: bool): nat {
    if s == [] then 0
    else (if afterWs && !IsWs(s[0]) then 1 else 0) + RunCount(s[1..], IsWs(s[0]))
  }

  /** `s` read as gap, word, gap, ..., word, gap. */
  function Interleave(gaps: seq<string>, words: seq<string>): string
    requires |gaps| == |words| + 1
  {
    if words == [] then gaps[0] else gaps[0] + words[0] + Interleave(gaps[1..], words[1..])
  }

  /** `s` consists of the tokens `words`, separated by whitespace gaps that are
      non-empty between two tokens and possibly empty at either end. This is
      what "the maximal non-whitespace runs of `s` are `words`" means. */
  ghost predicate IsRunDecomposition(s: string, words: seq<string>, gaps: seq<string>) {
    && |gaps| == |words| + 1
    && (forall i :: 0 <= i < |gaps| ==> AllWs(gaps[i]))
    && (forall i :: 0 < i < |words| ==> gaps[i] != [])
    && (forall i :: 0 <= i < |words| ==> IsToken(words[i]))
    && s == Interleave(gaps, words)
  }

  /** The whitespace gaps around and between the tokens of `Split(s)`. */
  function Gaps(s: string): (gaps: seq<string>)
    ensures |gaps| == |Split(s)| + 1
    decreases |s|
  {
    if s == [] then [[]]
    else if IsWs(s[0]) then
      var g := Gaps(s[1..]);
      [[s[0]] + g[0]] + g[1..]
    else
      var w := TakeWord(s);
      [[]] + Gaps(s[|w|..])
  }

  // ---------------------------------------------------------------------------
  // Lemmas about TakeWord

  /** A whitespace-free prefix followed by whitespace (or nothing) is exactly
      the word TakeWord finds. */
  lemma TakeWordOf(w: string, rest: string)
    requires NoWs(w)
    requires rest == [] || IsWs(rest[0])
    ensures TakeWord(w + rest) == w
  {
    var s := w + rest;
    var t := TakeWord(s);
    assert forall i :: 0 <= i < |w| ==> s[i] == w[i];
    assert rest != [] ==> s[|w|] == rest[0];
    assert |t| == |w|;
    assert t == s[..|t|] == w;
  }

  // ---------------------------------------------------------------------------
  // What the tokens add up to

  lemma {:induction false} RemoveWsAppend(a: string, b: string)
    ensures RemoveWs(a + b) == RemoveWs(a) + RemoveWs(b)
  {
    if a == [] {
      assert a + b == b;
    } else {
      var head := if IsWs(a[0]) then [] else [a[0]];
      assert (a + b)[0] == a[0] && (a + b)[1..] == a[1..] + b;
      RemoveWsAppend(a[1..], b);
      calc {
        RemoveWs(a + b);
        head + RemoveWs(a[1..] + b);
        head + (RemoveWs(a[1..]) + RemoveWs(b));
        (head + RemoveWs(a[1..])) + RemoveWs(b);
        RemoveWs(a) + RemoveWs(b);
      }
    }
  }

  lemma {:induction false} RemoveWsOfNoWs(w: string)
    requires NoWs(w)
    ensures RemoveWs(w) == w
  {
    if w != [] {
      RemoveWsOfNoWs(w[1..]);
    }
  }

  /** Joining the tokens with no separator gives the text with all of its
      whitespace removed. */
  lemma {:induction false} ConcatSplitIsRemoveWs(s: string)
    ensures Concat(Split(s)) == RemoveWs(s)
    decreases |s|
  {
    if s == [] {
    } else if IsWs(s[0]) {
      ConcatSplitIsRemoveWs(s[1..]);
    } else {
      var w := TakeWord(s);
      var rest := s[|w|..];
      assert s == w + rest;
      ConcatSplitIsRemoveWs(rest);
      var words := [w] + Split(rest);
      assert words[1..] == Split(rest);
      calc {
        Concat(Split(s));
        w + Concat(Split(rest));
        w + RemoveWs(rest);
        { RemoveWsOfNoWs(w); }
        RemoveWs(w) + RemoveWs(rest);
        { RemoveWsAppend(w, rest); }
        RemoveWs(s);
      }
    }
  }

  /** Deleting the whitespace leaves exactly the non-whitespace characters. */
  lemma {:induction false} RemoveWsLength(s: string)
    ensures |RemoveWs(s)| == |s| - WsCount(s)
  {
    if s != [] {
      RemoveWsLength(s[1..]);
    }
  }

  /** Tokens are non-empty, so their joined length is at least their number. */
  lemma {:induction false} ConcatLengthAtLeastCount(words: seq<string>)
    requires forall i :: 0 <= i < |words| ==> words[i] != []
    ensures |Concat(words)| >= |words|
  {
    if words != [] {
      ConcatLengthAtLeastCount(words[1..]);
    }
  }

  // ---------------------------------------------------------------------------
  // How many tokens there are

  /** Inside a word, the characters up to position n start no new run. */
  lemma {:induction false} RunCountInsideWord(s: string, n: nat)
    requires n <= |s|
    requires NoWs(s[..n])
    ensures RunCount(s, false) == RunCount(s[n..], false)
  {
    if n > 0 {
      assert !IsWs(s[..n][0]);
      assert s[1..][..n - 1] == s[..n][1..];
      RunCountInsideWord(s[1..], n - 1);
      assert s[1..][n - 1..] == s[n..];
    }
  }

  /** `str.split()` yields one token per maximal non-whitespace run. */
  lemma {:induction false} SplitCountsRuns(s: string)
    ensures |Split(s)| == RunCount(s, true)
    decreases |s|
  {
    if s == [] {
    } else if IsWs(s[0]) {
      SplitCountsRuns(s[1..]);
    } else {
      var w := TakeWord(s);
      var rest := s[|w|..];
      SplitCountsRuns(rest);
      assert s[1..][..|w| - 1] == w[1..];
      RunCountInsideWord(s[1..], |w| - 1);
      assert s[1..][|w| - 1..] == rest;
      // rest is empty or begins with whitespace, so "after whitespace" does
      // not matter for its first character.
      assert RunCount(rest, false) == RunCount(rest, true);
    }
  }

  // ---------------------------------------------------------------------------
  // Split finds exactly the maximal runs

  lemma InterleaveStartsWithGap(gaps: seq<string>, words: seq<string>)
    requires |gaps| == |words| + 1
    requires gaps[0] != []
    ensures Interleave(gaps, words) != [] && Interleave(gaps, words)[0] == gaps[0][0]
  {
  }

  /** Taking the first character off a non-empty leading gap. */
  lemma InterleaveDropFirst(gaps: seq<string>, words: seq<string>)
    requires |gaps| == |words| + 1
    requires gaps[0] != []
    ensures Interleave(gaps, words)[1..] == Interleave(gaps[0 := gaps[0][1..]], words)
  {
    var g := gaps[0 := gaps[0][1..]];
    if words != [] {
      assert g[1..] == gaps[1..];
      assert (gaps[0] + words[0] + Interleave(gaps[1..], words[1..]))[1..]
          == gaps[0][1..] + words[0] + Interleave(gaps[1..], words[1..]);
    }
  }

  /** Putting a character in front of the leading gap. */
  lemma {:induction false} InterleavePrepend(c: char, gaps: seq<string>, words: seq<string>)
    requires |gaps| == |words| + 1
    ensures Interleave([[c] + gaps[0]] + gaps[1..], words) == [c] + Interleave(gaps, words)
  {
    var g := [[c] + gaps[0]] + gaps[1..];
    if words != [] {
      assert g[1..] == gaps[1..];
    }
  }

  /** Uniqueness: any decomposition of `s` into whitespace gaps and tokens
      has exactly the tokens that Split returns. */
  lemma {:induction false} SplitOfDecomposition(s: string, words: seq<string>, gaps: seq<string>)
    requires IsRunDecomposition(s, words, gaps)
    ensures Split(s) == words
    decreases |s|
  {
    if gaps[0] != [] {
      InterleaveStartsWithGap(gaps, words);
      assert IsWs(s[0]) by { assert AllWs(gaps[0]); }
      var g := gaps[0 := gaps[0][1..]];
      InterleaveDropFirst(gaps, words);
      assert AllWs(g[0]) by { assert AllWs(gaps[0]); }
      assert forall i :: 0 < i < |g| ==> g[i] == gaps[i];
      assert IsRunDecomposition(s[1..], words, g);
      SplitOfDecomposition(s[1..], words, g);
    } else if words == [] {
      assert s == [];
    } else {
      var w := words[0];
      var rest := Interleave(gaps[1..], words[1..]);
      assert s == w + rest;
      assert IsToken(w);
      assert rest == [] || IsWs(rest[0]) by {
        if |words| > 1 {
          assert gaps[1] != [] && AllWs(gaps[1]);
          InterleaveStartsWithGap(gaps[1..], words[1..]);
        } else {
          assert rest == gaps[1] && AllWs(gaps[1]);
        }
      }
      TakeWordOf(w, rest);
      assert s[|w|..] == rest;
      assert IsRunDecomposition(rest, words[1..], gaps[1..]) by {
        forall i | 0 < i < |words[1..]| ensures gaps[1..][i] != [] {
          assert gaps[1..][i] == gaps[i + 1];
        }
        forall i | 0 <= i < |words[1..]| ensures IsToken(words[1..][i]) {
          assert words[1..][i] == words[i + 1];
        }
      }
      SplitOfDecomposition(rest, words[1..], gaps[1..]);
      assert words == [w] + words[1..];
    }
  }

  /** A whitespace character in front of a decomposed text joins its
      leading gap. */
  lemma DecomposeWsFirst(c: char, s: string, words: seq<string>, gaps: seq<string>)
    requires IsWs(c)
    requires IsRunDecomposition(s, words, gaps)
    ensures IsRunDecomposition([c] + s, words, [[c] + gaps[0]] + gaps[1..])
  {
    InterleavePrepend(c, gaps, words);
    assert AllWs([c] + gaps[0]) by { assert AllWs(gaps[0]); }
  }

  /** A token in front of a decomposed text that begins with whitespace (or
      is empty) becomes its first token. */
  lemma DecomposeTokenFirst(w: string, s: string, words: seq<string>, gaps: seq<string>)
    requires IsToken(w)
    requires s == [] || IsWs(s[0])
    requires IsRunDecomposition(s, words, gaps)
    ensures IsRunDecomposition(w + s, [w] + words, [[]] + gaps)
  {
    var gaps' := [[]] + gaps;
    var words' := [w] + words;
    assert gaps'[1..] == gaps && words'[1..] == words;
    assert Interleave(gaps', words') == w + s;
    assert forall i :: 0 < i < |words'| ==> gaps'[i] == gaps[i - 1];
  }

  /** Existence: the tokens of Split(s) together with Gaps(s) decompose `s`. */
  lemma {:induction false} SplitDecomposes(s: string)
    ensures IsRunDecomposition(s, Split(s), Gaps(s))
    decreases |s|
  {
    if s == [] {
    } else if IsWs(s[0]) {
      SplitDecomposes(s[1..]);
      DecomposeWsFirst(s[0], s[1..], Split(s[1..]), Gaps(s[1..]));
      assert s == [s[0]] + s[1..];
    } else {
      var w := TakeWord(s);
      var rest := s[|w|..];
      SplitDecomposes(rest);
      DecomposeTokenFirst(w, rest, Split(rest), Gaps(rest));
      assert s == w + rest;
    }
  }

  /** Split(s) == words exactly when `s` is `words` separated by whitespace. */
  lemma SplitCharacterization(s: string, words: seq<string>)
    ensures Split(s) == words <==> exists gaps :: IsRunDecomposition(s, words, gaps)
  {
    if Split(s) == words {
      SplitDecomposes(s);
    }
    if exists gaps :: IsRunDecomposition(s, words, gaps) {
      var gaps :| IsRunDecomposition(s, words, gaps);
      SplitOfDecomposition(s, words, gaps);
    }
  }

  /** A text has no tokens exactly when it is all whitespace. */
  lemma {:induction false} NoTokensIffAllWs(s: string)
    ensures Split(s) == [] <==> AllWs(s)
  {
    if AllWs(s) {
      SplitOfDecomposition(s, [], [s]);
    }
    if Split(s) == [] {
      SplitDecomposes(s);
    }
  }

  // ---------------------------------------------------------------------------
  // Round trip with a whitespace separator

  function SepGaps(n: nat, sep: string): (gaps: seq<string>)
    ensures |gaps| == n + 1
  {
    seq(n, _ => sep) + [[]]
  }

  lemma {:induction false} JoinIsInterleave(g: string, words: seq<string>, sep: string)
    requires words != []
    ensures Interleave([g] + SepGaps(|words| - 1, sep), words) == g + Join(words, sep)
    decreases |words|
  {
    var n := |words|;
    var gaps := [g] + SepGaps(n - 1, sep);
    if n == 1 {
      assert gaps[1..] == [[]];
    } else {
      assert gaps[1..] == [sep] + SepGaps(n - 2, sep);
      JoinIsInterleave(sep, words[1..], sep);
    }
  }

  /** Splitting tokens joined by any non-empty whitespace separator gives the
      tokens back. */
  lemma SplitJoin(words: seq<string>, sep: string)
    requires forall i :: 0 <= i < |words| ==> IsToken(words[i])
    requires sep != [] && AllWs(sep)
    ensures Split(Join(words, sep)) == words
  {
    if words == [] {
    } else {
      var gaps := [[]] + SepGaps(|words| - 1, sep);
      JoinIsInterleave([], words, sep);
      assert [] + Join(words, sep) == Join(words, sep);
      assert forall i :: 0 < i < |gaps| - 1 ==> gaps[i] == sep;
      assert forall i :: 0 <= i < |gaps| ==> AllWs(gaps[i]) by {
        forall i | 0 <= i < |gaps| ensures AllWs(gaps[i]) {
          assert gaps[i] == [] || gaps[i] == sep;
        }
      }
      SplitOfDecomposition(Join(words, sep), words, gaps);
    }
  }

  // ---------------------------------------------------------------------------
  // All whitespace characters delimit alike

  /** `s` and `t` have whitespace at the same places and agree elsewhere. */
  ghost predicate SameUpToWs(s: string, t: string) {
    && |s| == |t|
    && forall i :: 0 <= i < |s| ==> (IsWs(s[i]) <==> IsWs(t[i])) && (!IsWs(s[i]) ==> s[i] == t[i])
  }

  lemma {:induction false} TakeWordUpToWs(s: string, t: string)
    requires SameUpToWs(s, t)
    ensures TakeWord(s) == TakeWord(t)
    decreases |s|
  {
    if s != [] && !IsWs(s[0]) {
      assert SameUpToWs(s[1..], t[1..]) by {
        forall i | 0 <= i < |s| - 1
          ensures (IsWs(s[1..][i]) <==> IsWs(t[1..][i])) && (!IsWs(s[1..][i]) ==> s[1..][i] == t[1..][i])
        {
          assert s[1..][i] == s[i + 1] && t[1..][i] == t[i + 1];
        }
      }
      TakeWordUpToWs(s[1..], t[1..]);
    }
  }

  /** Replacing whitespace characters by other whitespace characters (a tab or
      a newline for a space, say) does not change the tokens. */
  lemma {:induction false} SplitUpToWs(s: string, t: string)
    requires SameUpToWs(s, t)
    ensures Split(s) == Split(t)
    decreases |s|
  {
    if s != [] {
      var k := if IsWs(s[0]) then 1 else |TakeWord(s)|;
      if !IsWs(s[0]) {
        TakeWordUpToWs(s, t);
      }
      assert SameUpToWs(s[k..], t[k..]) by {
        forall i | 0 <= i < |s| - k
          ensures (IsWs(s[k..][i]) <==> IsWs(t[k..][i])) && (!IsWs(s[k..][i]) ==> s[k..][i] == t[k..][i])
        {
          assert s[k..][i] == s[i + k] && t[k..][i] == t[i + k];
        }
      }
      SplitUpToWs(s[k..], t[k..]);
    }
  }

  // ---------------------------------------------------------------------------
  // Splitting a concatenation

  /** Run starts in `a + b` are those of `a` and those of `b`, where whether
      `b` begins after whitespace depends on how `a` ends. */
  lemma {:induction false} RunCountAppend(a: string, b: string, afterWs: bool)
    ensures RunCount(a + b, afterWs) == RunCount(a, afterWs) + RunCount(b, if a == [] then afterWs else IsWs(a[|a| - 1]))
  {
    if a == [] {
      assert a + b == b;
    } else {
      assert (a + b)[0] == a[0] && (a + b)[1..] == a[1..] + b;
      RunCountAppend(a[1..], b, IsWs(a[0]));
      if |a| > 1 {
        assert a[1..][|a| - 2] == a[|a| - 1];
      }
    }
  }

  /** The word at the start of `a` is not lengthened by what follows `a`
      when the boundary is not inside a token. */
  lemma {:induction false} TakeWordAppend(a: string, b: string)
    requires a != []
    requires b == [] || IsWs(a[|a| - 1]) || IsWs(b[0])
    ensures TakeWord(a + b) == TakeWord(a)
  {
    var w := TakeWord(a);
    var rest := a[|w|..];
    assert a + b == w + (rest + b);
    if rest != [] {
      assert (rest + b)[0] == a[|w|];
    } else {
      assert a[|a| - 1] == w[|w| - 1];
    }
    TakeWordOf(w, rest + b);
  }

  /** One step of `Split` on `a + b` when `a` begins with a token whose end
      is not at a boundary inside a token. */
  lemma {:induction false} SplitAppendTokenStep(a: string, b: string)
    requires a != [] && !IsWs(a[0])
    requires b == [] || IsWs(a[|a| - 1]) || IsWs(b[0])
    ensures var w := TakeWord(a);
      && Split(a) == [w] + Split(a[|w|..])
      && Split(a + b) == [w] + Split(a[|w|..] + b)
  {
    var w := TakeWord(a);
    TakeWordAppend(a, b);
    assert (a + b)[0] == a[0] && (a + b)[|w|..] == a[|w|..] + b;
  }

  /** When `a` ends in whitespace or `b` begins with it, no token straddles
      the boundary, and `a + b` splits into the tokens of `a`, then of `b`. */
  lemma {:induction false} SplitAppendAtBoundary(a: string, b: string)
    requires a == [] || b == [] || IsWs(a[|a| - 1]) || IsWs(b[0])
    ensures Split(a + b) == Split(a) + Split(b)
    decreases |a|
  {
    if a == [] {
      assert a + b == b;
    } else if b == [] {
      assert a + b == a;
    } else if IsWs(a[0]) {
      assert (a + b)[0] == a[0] && (a + b)[1..] == a[1..] + b;
      assert |a| > 1 ==> a[1..][|a| - 2] == a[|a| - 1];
      SplitAppendAtBoundary(a[1..], b);
    } else {
      var w := TakeWord(a);
      var rest := a[|w|..];
      SplitAppendTokenStep(a, b);
      assert rest != [] ==> rest[|rest| - 1] == a[|a| - 1];
      SplitAppendAtBoundary(rest, b);
      assert [w] + (Split(rest) + Split(b)) == ([w] + Split(rest)) + Split(b);
    }
  }

  /** A whitespace-free prefix is part of the first word. */
  lemma {:induction false} TakeWordPrefix(w: string, b: string)
    requires NoWs(w)
    ensures TakeWord(w + b) == w + TakeWord(b)
  {
    if w == [] {
      assert w + b == b;
    } else {
      var s := w + b;
      assert s[0] == w[0] && !IsWs(s[0]);
      assert s[1..] == w[1..] + b;
      assert TakeWord(s) == [w[0]] + TakeWord(w[1..] + b);
      assert NoWs(w[1..]) by {
        forall i | 0 <= i < |w| - 1 ensures !IsWs(w[1..][i]) {
          assert w[1..][i] == w[i + 1];
        }
      }
      TakeWordPrefix(w[1..], b);
      assert [w[0]] + (w[1..] + TakeWord(b)) == w + TakeWord(b);
    }
  }

  /** One step of `Split` on `a + b` when `a` begins with a token that ends
      inside `a`, before whitespace. */
  lemma {:induction false} SplitAppendInnerTokenStep(a: string, b: string)
    requires a != [] && !IsWs(a[0])
    requires |TakeWord(a)| < |a|
    ensures var w := TakeWord(a);
      && Split(a) == [w] + Split(a[|w|..])
      && Split(a + b) == [w] + Split(a[|w|..] + b)
  {
    var w := TakeWord(a);
    var rest := a[|w|..];
    assert a + b == w + (rest + b);
    assert (rest + b)[0] == a[|w|];
    TakeWordOf(w, rest + b);
    assert (a + b)[0] == a[0] && (a + b)[|w|..] == rest + b;
  }

  /** `a` is a single token and `b` begins with a token: they merge. */
  lemma {:induction false} SplitAppendWordMerge(a: string, b: string)
    requires a != [] && NoWs(a) && b != [] && !IsWs(b[0])
    ensures Split(a) == [a]
    ensures Split(b) != [] && Split(a + b) == [a + Split(b)[0]] + Split(b)[1..]
  {
    TakeWordOf(a, []);
    assert a + [] == a && a[|a|..] == [];
    var v := TakeWord(b);
    assert b[0] == v[0];
    TakeWordPrefix(a, b);
    assert (a + b)[0] == a[0];
    assert (a + b)[|a + v|..] == b[|v|..];
    assert (a + v) + b[|v|..] == a + b;
  }

  /** `x` and `y` with the last token of `x` and the first of `y` joined. */
  function MergeAt(x: seq<string>, y: seq<string>): seq<string>
    requires x != [] && y != []
  {
    x[..|x| - 1] + [x[|x| - 1] + y[0]] + y[1..]
  }

  lemma MergeAtPrepend(w: string, x: seq<string>, y: seq<string>)
    requires x != [] && y != []
    ensures MergeAt([w] + x, y) == [w] + MergeAt(x, y)
  {
    var z := [w] + x;
    assert z[..|z| - 1] == [w] + x[..|x| - 1] && z[|z| - 1] == x[|x| - 1];
  }

  /** Dropping leading whitespace from `a` keeps the boundary inside a
      token and changes neither `Split(a)` nor `Split(a + b)`. */
  lemma SplitAppendWsStep(a: string, b: string)
    requires |a| > 1 && IsWs(a[0]) && !IsWs(a[|a| - 1])
    ensures !IsWs(a[1..][|a[1..]| - 1])
    ensures Split(a) == Split(a[1..]) && Split(a + b) == Split(a[1..] + b)
  {
    assert (a + b)[0] == a[0] && (a + b)[1..] == a[1..] + b;
    assert a[1..][|a| - 2] == a[|a| - 1];
  }

  /** Taking the first token of `a`, when more follows it in `a`, keeps the
      boundary inside a token, and the token heads both splits. */
  lemma SplitAppendTokenMergeStep(a: string, b: string)
    requires a != [] && !IsWs(a[0]) && !IsWs(a[|a| - 1])
    requires |TakeWord(a)| < |a|
    ensures var rest := a[|TakeWord(a)|..];
      && rest != [] && !IsWs(rest[|rest| - 1])
      && Split(a) == [TakeWord(a)] + Split(rest)
      && Split(a + b) == [TakeWord(a)] + Split(rest + b)
  {
    SplitAppendInnerTokenStep(a, b);
    var rest := a[|TakeWord(a)|..];
    assert rest[|rest| - 1] == a[|a| - 1];
  }

  /** Where the boundary falls inside a token, the last token of `a` and the
      first token of `b` become one token of `a + b`. */
  lemma {:induction false} SplitAppendMerge(a: string, b: string)
    requires a != [] && b != [] && !IsWs(a[|a| - 1]) && !IsWs(b[0])
    ensures Split(a) != [] && Split(b) != []
    ensures Split(a + b) == MergeAt(Split(a), Split(b))
    decreases |a|
  {
    if IsWs(a[0]) {
      assert Split(a) != [] && Split(a + b) == MergeAt(Split(a), Split(b)) by {
        SplitAppendWsStep(a, b);
        SplitAppendMerge(a[1..], b);
      }
    } else if |TakeWord(a)| == |a| {
      assert Split(a) != [] && Split(a + b) == MergeAt(Split(a), Split(b)) by {
        assert TakeWord(a) == a;
        SplitAppendWordMerge(a, b);
      }
    } else {
      assert Split(a) != [] && Split(a + b) == MergeAt(Split(a), Split(b)) by {
        var w := TakeWord(a);
        SplitAppendTokenMergeStep(a, b);
        SplitAppendMerge(a[|w|..], b);
        MergeAtPrepend(w, Split(a[|w|..]), Split(b));
      }
    }
  }

  /** `(a + b).split()` is `a.split() + b.split()` exactly when the boundary
      between `a` and `b` does not fall inside a token; otherwise the token
      ending `a` and the token beginning `b` are joined into one, so there is
      one token fewer. */
  lemma SplitAppend(a: string, b: string)
    ensures Split(a + b) == Split(a) + Split(b)
        <==> a == [] || b == [] || IsWs(a[|a| - 1]) || IsWs(b[0])
    ensures |Split(a + b)| + (if a == [] || b == [] || IsWs(a[|a| - 1]) || IsWs(b[0]) then 0 else 1)
         == |Split(a)| + |Split(b)|
    ensures !(a == [] || b == [] || IsWs(a[|a| - 1]) || IsWs(b[0])) ==>
      var x, y := Split(a), Split(b);
      && x != [] && y != []
      && Split(a + b) == x[..|x| - 1] + [x[|x| - 1] + y[0]] + y[1..]
  {
    if a == [] || b == [] || IsWs(a[|a| - 1]) || IsWs(b[0]) {
      SplitAppendAtBoundary(a, b);
    } else {
      SplitCountsRuns(a + b);
      SplitCountsRuns(a);
      SplitCountsRuns(b);
      RunCountAppend(a, b, true);
      assert |Split(a + b)| + 1 == |Split(a)| + |Split(b)|;
      SplitAppendMerge(a, b);
    }
  }
}
