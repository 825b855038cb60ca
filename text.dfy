/** Character classes and the scanners that stand in for the string methods
    and regular expressions used by the field parsers: `str.strip()`,
    `re.sub(r'\s+', ' ', …)`, `str.split(sep)`, `str.split()`,
    `' '.join(…)`, `re.sub(r'[…]', '', …)` and the first match of
    `re.findall(r'[\d.]+', …)` or `re.findall(r'\d+', …)`. */
module Text {

  import opened Wrappers

  /** Python's `str.isspace()`; `\s`, `strip()` and `split()` all use this class. */
  predicate IsSpace(c: char)
  {
    || c == ' '
    || ('\t' <= c <= '\r')
    || ('\U{1C}' <= c <= '\U{1F}')
    || c == '\U{85}' || c == '\U{A0}' || c == '\U{1680}'
    || ('\U{2000}' <= c <= '\U{200A}')
    || c == '\U{2028}' || c == '\U{2029}' || c == '\U{202F}' || c == '\U{205F}' || c == '\U{3000}'
  }

  /** `\d`, restricted to the ASCII digits. */
  predicate IsDigit(c: char)
  {
    '0' <= c <= '9'
  }

  // ---------------------------------------------------------------------------
  // strip() and re.sub(r'\s+', ' ', …)
  // ---------------------------------------------------------------------------

  /** `s.lstrip()`: the suffix left after dropping the leading whitespace. */
  function TrimLeft(s: string): (r: string)
    ensures |r| <= |s| && r == s[|s| - |r|..]
    ensures r != [] ==> !IsSpace(r[0])
    ensures forall i :: 0 <= i < |s| - |r| ==> IsSpace(s[i])
  {
    if s != [] && IsSpace(s[0]) then TrimLeft(s[1..]) else s
  }

  /** `s.rstrip()`: the prefix left after dropping the trailing whitespace. */
  function TrimRight(s: string): (r: string)
    ensures |r| <= |s| && r == s[..|r|]
    ensures r != [] ==> !IsSpace(r[|r| - 1])
    ensures forall i :: |r| <= i < |s| ==> IsSpace(s[i])
  {
    if s != [] && IsSpace(s[|s| - 1]) then TrimRight(s[..|s| - 1]) else s
  }

  /** `s.strip()`. */
  function Strip(s: string): (r: string)
    ensures r != [] ==> !IsSpace(r[0]) && !IsSpace(r[|r| - 1])
  {
    TrimRight(TrimLeft(s))
  }

  /** Every whitespace character is a plain space and no two are adjacent. */
  predicate SingleSpaced(s: string)
  {
    && (forall i :: 0 <= i < |s| && IsSpace(s[i]) ==> s[i] == ' ')
    && (forall i :: 0 <= i < |s| - 1 && IsSpace(s[i]) ==> !IsSpace(s[i + 1]))
  }

  /** The shape `_clean_text` promises: single-spaced, nothing at either end. */
  predicate IsClean(s: string)
  {
    SingleSpaced(s) && (s != [] ==> !IsSpace(s[0]) && !IsSpace(s[|s| - 1]))
  }

  /** `re.sub(r'\s+', ' ', s)`: each maximal run of whitespace becomes one space. */
  function CollapseSpaces(s: string): (r: string)
    ensures SingleSpaced(r)
    ensures s == [] <==> r == []
    ensures r != [] ==> (IsSpace(r[0]) <==> IsSpace(s[0]))
    ensures r != [] ==> (IsSpace(r[|r| - 1]) <==> IsSpace(s[|s| - 1]))
    decreases |s|
  {
    if s == [] then []
    else
      var c := if IsSpace(s[0]) then ' ' else s[0];
      var rest := CollapseSpaces(if IsSpace(s[0]) then TrimLeft(s[1..]) else s[1..]);
      SingleSpacedCons(c, rest);
      [c] + rest
  }

  lemma SingleSpacedCons(c: char, r: string)
    requires SingleSpaced(r)
    requires IsSpace(c) ==> c == ' ' && (r == [] || !IsSpace(r[0]))
    ensures SingleSpaced([c] + r)
  {
    var s := [c] + r;
    assert forall i :: 1 <= i < |s| ==> s[i] == r[i - 1];
  }

  /** The characters of `s` that are not whitespace, in order. */
  function NonSpaces(s: string): string
  {
    if s == [] then []
    else if IsSpace(s[0]) then NonSpaces(s[1..])
    else [s[0]] + NonSpaces(s[1..])
  }

  // ---------------------------------------------------------------------------
  // str.split(sep) for a one-character separator
  // ---------------------------------------------------------------------------

  /** The number of occurrences of `c` in `s`. */
  function Occurrences(s: string, c: char): nat
  {
    if s == [] then 0 else (if s[0] == c then 1 else 0) + Occurrences(s[1..], c)
  }

  /** `s.split(sep)`: the pieces between the separators, one more than there are
      separators; the first piece is the longest prefix without `sep`. */
  function Split(s: string, sep: char): (parts: seq<string>)
    ensures |parts| == Occurrences(s, sep) + 1
    ensures forall i :: 0 <= i < |parts| ==> sep !in parts[i]
    ensures parts[0] <= s && (|parts[0]| < |s| ==> s[|parts[0]|] == sep)
    ensures forall i, j :: 0 <= i < |parts| && 0 <= j < |parts[i]| ==> parts[i][j] in s
  {
    if s == [] then [[]]
    else
      var rest := Split(s[1..], sep);
      if s[0] == sep then [[]] + rest
      else [[s[0]] + rest[0]] + rest[1..]
  }

  /** `sep.join(parts)`. */
  function JoinWith(parts: seq<string>, sep: char): string
  {
    if parts == [] then []
    else if |parts| == 1 then parts[0]
    else parts[0] + [sep] + JoinWith(parts[1..], sep)
  }

  // ---------------------------------------------------------------------------
  // str.split() and ' '.join(…)
  // ---------------------------------------------------------------------------

  /** Every character is whitespace. */
  predicate AllSpaces(s: string)
  {
    forall i :: 0 <= i < |s| ==> IsSpace(s[i])
  }

  /** A piece that `str.split()` can return: non-empty and without whitespace. */
  predicate IsWord(w: string)
  {
    w != [] && forall i :: 0 <= i < |w| ==> !IsSpace(w[i])
  }

  /** The longest prefix of `s` without whitespace. */
  function TakeWord(s: string): (w: string)
    ensures w <= s
    ensures forall i :: 0 <= i < |w| ==> !IsSpace(w[i])
    ensures |w| < |s| ==> IsSpace(s[|w|])
  {
    if s == [] || IsSpace(s[0]) then [] else [s[0]] + TakeWord(s[1..])
  }

  /** `s.split()`: the maximal runs of non-whitespace characters, in order. */
  function Words(s: string): (ws: seq<string>)
    decreases |s|
  {
    var t := TrimLeft(s);
    if t == [] then []
    else
      var w := TakeWord(t);
      [w] + Words(t[|w|..])
  }

  /** `' '.join(ws)`. */
  function JoinWords(ws: seq<string>): string
  {
    JoinWith(ws, ' ')
  }

  // ---------------------------------------------------------------------------
  // re.sub(r'[…]', '', s)
  // ---------------------------------------------------------------------------

  /** The two sets of characters the parsers delete: `[$,€£]` before a price
      and `,` before a reviews count. */
  datatype Deletion = CurrencyAndCommas | Commas
  {
    predicate Drops(c: char)
    {
      c == ',' || (this == CurrencyAndCommas && (c == '$' || c == '\U{20AC}' || c == '\U{A3}'))
    }
  }

  /** `s` with every character that `drop` names deleted. */
  function RemoveAll(s: string, drop: Deletion): (r: string)
    ensures |r| <= |s|
  {
    if s == [] then []
    else if drop.Drops(s[0]) then RemoveAll(s[1..], drop)
    else [s[0]] + RemoveAll(s[1..], drop)
  }

  // ---------------------------------------------------------------------------
  // The first match of re.findall(r'[\d.]+', s) or re.findall(r'\d+', s)
  // ---------------------------------------------------------------------------

  /** The two character classes the parsers search for. */
  datatype CharClass = DigitsAndDots | DigitsOnly
  {
    predicate Has(c: char)
    {
      IsDigit(c) || (this == DigitsAndDots && c == '.')
    }
  }

  /** Where the leftmost match starts: the first index whose character is in
      the class, or `|s|` when there is none. */
  function MatchStart(s: string, cls: CharClass): (i: nat)
    ensures i <= |s|
    ensures forall j :: 0 <= j < i ==> !cls.Has(s[j])
    ensures i < |s| ==> cls.Has(s[i])
  {
    if s == [] || cls.Has(s[0]) then 0 else 1 + MatchStart(s[1..], cls)
  }

  /** Where a match that starts at `i` ends: the greedy `+` takes every
      character of the class from `i` on. */
  function MatchEnd(s: string, cls: CharClass, i: nat): (k: nat)
    requires i <= |s|
    ensures i <= k <= |s|
    ensures forall j :: i <= j < k ==> cls.Has(s[j])
    ensures k < |s| ==> !cls.Has(s[k])
    decreases |s| - i
  {
    if i == |s| || !cls.Has(s[i]) then i else MatchEnd(s, cls, i + 1)
  }

  /** `re.findall(pattern, s)[0]` when there is a match, else `None`: the
      leftmost, longest non-empty run of characters of the class. */
  function FirstMatch(s: string, cls: CharClass): (r: Option<string>)
    ensures r.None? <==> forall j :: 0 <= j < |s| ==> !cls.Has(s[j])
    ensures r.Some? ==> r.value != [] && forall j :: 0 <= j < |r.value| ==> cls.Has(r.value[j])
  {
    var i := MatchStart(s, cls);
    if i == |s| then None else Some(s[i..MatchEnd(s, cls, i)])
  }


  // ---------------------------------------------------------------------------
  // Properties
  // ---------------------------------------------------------------------------

  /** Collapsing a text that is already single-spaced changes nothing. */
  lemma {:induction false} CollapseKeepsSingleSpaced(s: string)
    requires SingleSpaced(s)
    ensures CollapseSpaces(s) == s
    decreases |s|
  {
    if s != [] {
      var t := s[1..];
      SingleSpacedTail(s);
      CollapseKeepsSingleSpaced(t);
      if IsSpace(s[0]) {
        assert TrimLeft(t) == t;
      }
    }
  }

  lemma SingleSpacedTail(s: string)
    requires SingleSpaced(s) && s != []
    ensures SingleSpaced(s[1..])
    ensures IsSpace(s[0]) ==> s[0] == ' ' && (s[1..] == [] || !IsSpace(s[1..][0]))
  {
  }

  /** Dropping leading whitespace keeps the other characters. */
  lemma {:induction false} NonSpacesTrimLeft(s: string)
    ensures NonSpaces(TrimLeft(s)) == NonSpaces(s)
  {
    if s != [] && IsSpace(s[0]) {
      NonSpacesTrimLeft(s[1..]);
    }
  }

  lemma {:induction false} NonSpacesAppend(a: string, b: string)
    ensures NonSpaces(a + b) == NonSpaces(a) + NonSpaces(b)
  {
    if a != [] {
      assert (a + b)[0] == a[0];
      assert (a + b)[1..] == a[1..] + b;
      NonSpacesAppend(a[1..], b);
    } else {
      assert a + b == b;
    }
  }

  lemma {:induction false} NonSpacesOfSpaces(s: string)
    requires forall i :: 0 <= i < |s| ==> IsSpace(s[i])
    ensures NonSpaces(s) == []
  {
    if s != [] {
      NonSpacesOfSpaces(s[1..]);
    }
  }

  /** Dropping trailing whitespace keeps the other characters. */
  lemma NonSpacesTrimRight(s: string)
    ensures NonSpaces(TrimRight(s)) == NonSpaces(s)
  {
    var r := TrimRight(s);
    assert s == r + s[|r|..];
    NonSpacesAppend(r, s[|r|..]);
    NonSpacesOfSpaces(s[|r|..]);
  }

  /** Collapsing whitespace runs keeps every other character, in order. */
  lemma {:induction false} NonSpacesCollapse(s: string)
    ensures NonSpaces(CollapseSpaces(s)) == NonSpaces(s)
    decreases |s|
  {
    if s != [] {
      if IsSpace(s[0]) {
        var t := TrimLeft(s[1..]);
        NonSpacesCollapse(t);
        NonSpacesTrimLeft(s[1..]);
        assert ([' '] + CollapseSpaces(t))[1..] == CollapseSpaces(t);
      } else {
        NonSpacesCollapse(s[1..]);
        assert ([s[0]] + CollapseSpaces(s[1..]))[1..] == CollapseSpaces(s[1..]);
      }
    }
  }

  /** Joining the pieces of `s.split(sep)` with `sep` gives `s` back. */
  lemma {:induction false} JoinSplit(s: string, sep: char)
    ensures JoinWith(Split(s, sep), sep) == s
  {
    if s != [] {
      var rest := Split(s[1..], sep);
      JoinSplit(s[1..], sep);
      assert JoinWith(rest, sep) == s[1..];
      if s[0] == sep {
        JoinAfterEmpty(rest, sep);
      } else {
        JoinExtendFirst(s[0], rest, sep);
      }
    }
  }

  lemma JoinAfterEmpty(rest: seq<string>, sep: char)
    requires rest != []
    ensures JoinWith([[]] + rest, sep) == [sep] + JoinWith(rest, sep)
  {
    assert ([[]] + rest)[1..] == rest;
  }

  lemma JoinExtendFirst(c: char, rest: seq<string>, sep: char)
    requires rest != []
    ensures JoinWith([[c] + rest[0]] + rest[1..], sep) == [c] + JoinWith(rest, sep)
  {
    var parts := [[c] + rest[0]] + rest[1..];
    assert parts[1..] == rest[1..];
  }

  lemma {:induction false} TrimLeftOfSpaces(s: string)
    requires AllSpaces(s)
    ensures TrimLeft(s) == []
  {
    if s != [] {
      TrimLeftOfSpaces(s[1..]);
    }
  }

  lemma TrimLeftAppend(a: string, b: string)
    requires TrimLeft(a) != []
    ensures TrimLeft(a + b) == TrimLeft(a) + b
  {
    var k := |a| - |TrimLeft(a)|;
    assert !IsSpace(a[k]);
    LeadingSpacesAppend(a, b, k);
    TrimLeftAt(a + b, k);
  }

  lemma LeadingSpacesAppend(a: string, b: string, k: nat)
    requires k < |a| && forall i :: 0 <= i < k ==> IsSpace(a[i])
    ensures forall i :: 0 <= i < k ==> IsSpace((a + b)[i])
    ensures (a + b)[k] == a[k] && (a + b)[k..] == a[k..] + b
  {
    forall i | 0 <= i < k
      ensures IsSpace((a + b)[i])
    {
      assert (a + b)[i] == a[i];
    }
  }

  /** `lstrip` drops exactly the leading whitespace, however long. */
  lemma {:induction false} TrimLeftAt(s: string, k: nat)
    requires k <= |s|
    requires forall i :: 0 <= i < k ==> IsSpace(s[i])
    requires k == |s| || !IsSpace(s[k])
    ensures TrimLeft(s) == s[k..]
  {
    if k > 0 {
      assert IsSpace(s[0]);
      forall i | 0 <= i < k - 1
        ensures IsSpace(s[1..][i])
      {
        assert s[1..][i] == s[i + 1];
      }
      assert k - 1 == |s[1..]| || s[1..][k - 1] == s[k];
      TrimLeftAt(s[1..], k - 1);
      assert s[1..][k - 1..] == s[k..];
    }
  }

  /** A word stops at the first whitespace, so text after a break does not join it. */
  lemma {:induction false} TakeWordAppend(a: string, b: string)
    requires |TakeWord(a)| < |a| || b == [] || IsSpace(b[0])
    ensures TakeWord(a + b) == TakeWord(a)
  {
    if a == [] {
      assert a + b == b;
    } else if !IsSpace(a[0]) {
      assert (a + b)[1..] == a[1..] + b;
      TakeWordAppend(a[1..], b);
    }
  }

  /** Trailing whitespace adds no word. */
  lemma {:induction false} WordsAppendSpaces(s: string, sp: string)
    requires AllSpaces(sp)
    ensures Words(s + sp) == Words(s)
    decreases |s|
  {
    var t := TrimLeft(s);
    if t == [] {
      assert Words(s) == [];
      assert AllSpaces(s + sp) by {
        forall i | 0 <= i < |s + sp|
          ensures IsSpace((s + sp)[i])
        {
          if i >= |s| {
            assert (s + sp)[i] == sp[i - |s|];
          }
        }
      }
      TrimLeftOfSpaces(s + sp);
    } else {
      TrimLeftAppend(s, sp);
      assert TrimLeft(s + sp) == t + sp;
      var w := TakeWord(t);
      assert sp == [] || IsSpace(sp[0]);
      TakeWordAppend(t, sp);
      assert TakeWord(t + sp) == w;
      assert (t + sp)[|w|..] == t[|w|..] + sp;
      WordsAppendSpaces(t[|w|..], sp);
      assert Words(s + sp) == [w] + Words((t + sp)[|w|..]);
    }
  }

  /** `s.strip().split() == s.split()`. */
  lemma {:induction false} WordsOfStrip(s: string)
    ensures Words(Strip(s)) == Words(s)
  {
    var sp := TrailingSpaces(TrimLeft(s));
    WordsAppendSpaces(Strip(s), sp);
    WordsOfTrimLeft(s);
  }

  /** What `rstrip()` drops is whitespace, and nothing else is lost. */
  lemma TrailingSpaces(t: string) returns (sp: string)
    ensures AllSpaces(sp) && t == TrimRight(t) + sp
  {
    var r := TrimRight(t);
    sp := t[|r|..];
    assert t == r + sp;
    forall i | 0 <= i < |sp|
      ensures IsSpace(sp[i])
    {
      assert sp[i] == t[|r| + i];
    }
  }

  /** Leading whitespace adds no word. */
  lemma WordsOfTrimLeft(s: string)
    ensures Words(TrimLeft(s)) == Words(s)
  {
    var t := TrimLeft(s);
    TrimLeftTwice(s);
    assert TrimLeft(t) == t;
  }

  lemma TrimLeftTwice(s: string)
    ensures TrimLeft(TrimLeft(s)) == TrimLeft(s)
  {
    var t := TrimLeft(s);
    if t != [] {
      assert !IsSpace(t[0]);
    }
  }

  /** Every piece `str.split()` returns is a word. */
  lemma {:induction false} WordsAreWords(s: string)
    ensures forall i :: 0 <= i < |Words(s)| ==> IsWord(Words(s)[i])
    decreases |s|
  {
    var t := TrimLeft(s);
    if t != [] {
      var w := TakeWord(t);
      assert w != [];
      WordsAreWords(t[|w|..]);
    }
  }

  /** A word followed by a break or by nothing is taken whole. */
  lemma {:induction false} TakeWholeWord(w: string, tail: string)
    requires forall i :: 0 <= i < |w| ==> !IsSpace(w[i])
    requires tail == [] || IsSpace(tail[0])
    ensures TakeWord(w + tail) == w
  {
    if w == [] {
      assert w + tail == tail;
    } else {
      assert (w + tail)[0] == w[0];
      assert (w + tail)[1..] == w[1..] + tail;
      TakeWholeWord(w[1..], tail);
    }
  }

  /** A leading space adds no word. */
  lemma WordsAfterSpace(rest: string)
    ensures Words([' '] + rest) == Words(rest)
  {
    assert ([' '] + rest)[1..] == rest;
    assert TrimLeft([' '] + rest) == TrimLeft(rest);
  }

  /** Leading whitespace adds no word, one character at a time. */
  lemma WordsDropSpace(s: string)
    requires s != [] && IsSpace(s[0])
    ensures Words(s) == Words(s[1..])
  {
    assert TrimLeft(s) == TrimLeft(s[1..]);
  }

  /** A text that starts with a letter has that letter as a word of its own,
      or as the head of the first word of the rest. */
  lemma WordsOfLetter(s: string)
    requires s != [] && !IsSpace(s[0])
    ensures s[1..] == [] || IsSpace(s[1]) ==> Words(s) == [[s[0]]] + Words(s[1..])
    ensures s[1..] != [] && !IsSpace(s[1]) ==>
      Words(s[1..]) != [] && Words(s) == [[s[0]] + Words(s[1..])[0]] + Words(s[1..])[1..]
  {
    assert s == [s[0]] + s[1..];
    WordsConsWord(s[0], s[1..]);
  }

  lemma WordsConsWord(c: char, x: string)
    requires !IsSpace(c)
    ensures x != [] && !IsSpace(x[0]) ==> Words(x) != []
    ensures x == [] || IsSpace(x[0]) ==> Words([c] + x) == [[c]] + Words(x)
    ensures x != [] && !IsSpace(x[0]) ==> Words([c] + x) == [[c] + Words(x)[0]] + Words(x)[1..]
  {
    var s := [c] + x;
    assert s[0] == c && s[1..] == x;
    assert TrimLeft(s) == s;
    if x == [] || IsSpace(x[0]) {
      assert TakeWord(s) == [c];
    } else {
      assert TrimLeft(x) == x;
      var w := TakeWord(x);
      assert TakeWord(s) == [c] + w;
      assert s[|[c] + w|..] == x[|w|..];
    }
  }

  /** `re.sub(r'\s+', ' ', s).split() == s.split()`: each whitespace run
      becomes one space, so the words stay apart and none is lost. */
  lemma {:induction false} CollapseKeepsWords(s: string)
    ensures Words(CollapseSpaces(s)) == Words(s)
    decreases |s|
  {
    if s != [] {
      if IsSpace(s[0]) {
        CollapseKeepsWords(TrimLeft(s[1..]));
        CollapseSpaceStep(s);
      } else {
        CollapseKeepsWords(s[1..]);
        CollapseWordStep(s);
      }
    }
  }

  lemma CollapseSpaceStep(s: string)
    requires s != [] && IsSpace(s[0])
    requires Words(CollapseSpaces(TrimLeft(s[1..]))) == Words(TrimLeft(s[1..]))
    ensures Words(CollapseSpaces(s)) == Words(s)
  {
    var rest := CollapseSpaces(TrimLeft(s[1..]));
    assert CollapseSpaces(s) == [' '] + rest;
    WordsAfterSpace(rest);
    WordsOfTrimLeft(s[1..]);
    WordsDropSpace(s);
  }

  lemma CollapseWordStep(s: string)
    requires s != [] && !IsSpace(s[0])
    requires Words(CollapseSpaces(s[1..])) == Words(s[1..])
    ensures Words(CollapseSpaces(s)) == Words(s)
  {
    var r := CollapseSpaces(s);
    assert r[0] == s[0] && r[1..] == CollapseSpaces(s[1..]);
    WordsSameTail(r, s);
  }

  /** Two texts that start with the same letter, agree on whether a word
      follows at once, and have the same words after it, have the same words. */
  lemma WordsSameTail(x: string, y: string)
    requires x != [] && y != [] && x[0] == y[0] && !IsSpace(x[0])
    requires Words(x[1..]) == Words(y[1..])
    requires x[1..] == [] <==> y[1..] == []
    requires x[1..] != [] ==> (IsSpace(x[1]) <==> IsSpace(y[1]))
    ensures Words(x) == Words(y)
  {
    WordsOfLetter(x);
    WordsOfLetter(y);
  }

  /** A word followed by a break or by nothing is the first word. */
  lemma WordsOfWordThen(w: string, tail: string)
    requires IsWord(w)
    requires tail == [] || IsSpace(tail[0])
    ensures Words(w + tail) == [w] + Words(tail)
  {
    var s := w + tail;
    assert s[0] == w[0];
    assert TrimLeft(s) == s;
    TakeWholeWord(w, tail);
    assert s[|w|..] == tail;
  }

  /** `' '.join(ws).split() == ws` for a list of words: the join loses nothing. */
  lemma {:induction false} WordsOfJoin(ws: seq<string>)
    requires forall i :: 0 <= i < |ws| ==> IsWord(ws[i])
    ensures Words(JoinWords(ws)) == ws
  {
    if |ws| == 1 {
      WordsOfWordThen(ws[0], []);
      assert ws[0] + [] == ws[0];
    } else if |ws| > 1 {
      WordsOfJoin(ws[1..]);
      WordsOfJoinStep(ws);
    }
  }

  lemma WordsOfJoinStep(ws: seq<string>)
    requires |ws| > 1 && IsWord(ws[0])
    requires Words(JoinWords(ws[1..])) == ws[1..]
    ensures Words(JoinWords(ws)) == ws
  {
    var rest := JoinWords(ws[1..]);
    var tail := [' '] + rest;
    JoinWordsCons(ws);
    assert IsSpace(tail[0]);
    WordsOfWordThen(ws[0], tail);
    WordsAfterSpace(rest);
    HeadThenTail(ws);
    calc {
      Words(JoinWords(ws));
      Words(ws[0] + tail);
      [ws[0]] + Words(tail);
      [ws[0]] + ws[1..];
      ws;
    }
  }

  lemma HeadThenTail(ws: seq<string>)
    requires ws != []
    ensures [ws[0]] + ws[1..] == ws
  {
  }

  lemma JoinWordsCons(ws: seq<string>)
    requires |ws| > 1
    ensures JoinWords(ws) == ws[0] + ([' '] + JoinWords(ws[1..]))
  {
    assert JoinWith(ws, ' ') == ws[0] + [' '] + JoinWith(ws[1..], ' ');
  }

  /** `' '.join(r.split()) == r` for a clean text: it is its words joined
      by single spaces. */
  lemma {:induction false} JoinWordsOfClean(r: string)
    requires IsClean(r)
    ensures JoinWords(Words(r)) == r
    decreases |r|
  {
    if r != [] {
      var w := TakeWord(r);
      assert w != [] && w == r[..|w|];
      if |w| == |r| {
        JoinWordsOfWord(r);
      } else {
        var rest := CleanAfterBreak(r, |w|);
        JoinWordsOfClean(rest);
        JoinWordsOfWordThen(w, rest);
      }
    }
  }

  lemma JoinWordsOfWord(w: string)
    requires IsWord(w)
    ensures JoinWords(Words(w)) == w
  {
    WordsOfWordThen(w, []);
    assert w + [] == w;
  }

  lemma JoinWordsOfWordThen(w: string, rest: string)
    requires IsWord(w) && rest != [] && !IsSpace(rest[0])
    requires JoinWords(Words(rest)) == rest
    ensures JoinWords(Words(w + ([' '] + rest))) == w + ([' '] + rest)
  {
    WordsOfWordThen(w, [' '] + rest);
    WordsAfterSpace(rest);
    assert TrimLeft(rest) == rest;
    var ws := [w] + Words(rest);
    JoinWordsCons(ws);
    assert ws[1..] == Words(rest);
  }

  /** In a clean text a whitespace character is a lone space between two
      letters, and what follows it is clean again. */
  lemma CleanAfterBreak(r: string, k: nat) returns (rest: string)
    requires IsClean(r) && k < |r| && IsSpace(r[k])
    ensures k + 1 < |r| && r == r[..k] + ([' '] + rest)
    ensures rest != [] && !IsSpace(rest[0]) && IsClean(rest)
  {
    assert r[k] == ' ' && k + 1 < |r| && !IsSpace(r[k + 1]);
    rest := r[k + 1..];
    SingleSpacedSuffix(r, k + 1);
    assert rest[0] == r[k + 1] && rest[|rest| - 1] == r[|r| - 1];
    assert r[k..] == [' '] + rest;
    assert r == r[..k] + r[k..];
  }

  lemma SingleSpacedSuffix(r: string, j: nat)
    requires SingleSpaced(r) && j <= |r|
    ensures SingleSpaced(r[j..])
  {
    var s := r[j..];
    forall i | 0 <= i < |s|
      ensures s[i] == r[j + i]
    {
    }
  }

  /** `' '.join(s.split()[:k]).split() == s.split()[:k]`. */
  lemma WordsOfFirstWords(s: string, k: nat)
    requires k <= |Words(s)|
    ensures Words(JoinWords(Words(s)[..k])) == Words(s)[..k]
  {
    var ws := Words(s);
    var first := ws[..k];
    WordsAreWords(s);
    assert forall i :: 0 <= i < |first| ==> first[i] == ws[i];
    WordsOfJoin(first);
  }

  /** A character outside the class in front of a text does not change its first match. */
  lemma SkipOutsideClass(c: char, s: string, cls: CharClass)
    requires !cls.Has(c)
    ensures FirstMatch([c] + s, cls) == FirstMatch(s, cls)
  {
    var t := [c] + s;
    assert t[1..] == s;
    var i := MatchStart(s, cls);
    assert MatchStart(t, cls) == i + 1;
    if i < |s| {
      MatchEndShift(c, s, cls, i);
      SliceAfterHead(c, s, i, MatchEnd(s, cls, i));
    }
  }

  lemma SliceAfterHead(c: char, s: string, i: nat, k: nat)
    requires i <= k <= |s|
    ensures ([c] + s)[i + 1..k + 1] == s[i..k]
  {
  }

  lemma {:induction false} MatchEndShift(c: char, s: string, cls: CharClass, i: nat)
    requires i <= |s|
    ensures MatchEnd([c] + s, cls, i + 1) == MatchEnd(s, cls, i) + 1
    decreases |s| - i
  {
    var t := [c] + s;
    if i < |s| && cls.Has(s[i]) {
      assert t[i + 1] == s[i];
      MatchEndShift(c, s, cls, i + 1);
    } else if i < |s| {
      assert t[i + 1] == s[i];
    }
  }

  /** A run made only of class characters is its own first match. */
  lemma FirstMatchOfRun(s: string, cls: CharClass)
    requires s != [] && forall j :: 0 <= j < |s| ==> cls.Has(s[j])
    ensures FirstMatch(s, cls) == Some(s)
  {
    assert MatchStart(s, cls) == 0;
    var k := MatchEnd(s, cls, 0);
    assert k == |s|;
    assert s[0..k] == s;
  }

  /** Removing characters that do not occur changes nothing. */
  lemma RemoveAllKeeps(s: string, drop: Deletion)
    requires forall i :: 0 <= i < |s| ==> !drop.Drops(s[i])
    ensures RemoveAll(s, drop) == s
  {
    if s != [] {
      RemoveAllKeeps(s[1..], drop);
    }
  }

  /** What is left is exactly the characters of the text that are not dropped. */
  lemma {:induction false} RemoveAllMembers(s: string, drop: Deletion)
    ensures forall c :: c in RemoveAll(s, drop) <==> c in s && !drop.Drops(c)
  {
    if s != [] {
      RemoveAllMembers(s[1..], drop);
      assert forall c :: c in s <==> c == s[0] || c in s[1..];
    }
  }

  /** Removal works piece by piece. */
  lemma {:induction false} RemoveAllAppend(a: string, b: string, drop: Deletion)
    ensures RemoveAll(a + b, drop) == RemoveAll(a, drop) + RemoveAll(b, drop)
  {
    if a != [] {
      assert (a + b)[0] == a[0];
      assert (a + b)[1..] == a[1..] + b;
      RemoveAllAppend(a[1..], b, drop);
    } else {
      assert a + b == b;
    }
  }

  /** Removing twice is removing once. */
  lemma RemoveAllTwice(s: string, drop: Deletion)
    ensures RemoveAll(RemoveAll(s, drop), drop) == RemoveAll(s, drop)
  {
    var r := RemoveAll(s, drop);
    RemoveAllMembers(s, drop);
    forall i | 0 <= i < |r|
      ensures !drop.Drops(r[i])
    {
      assert r[i] in r;
    }
    RemoveAllKeeps(r, drop);
  }

  /** A text without the separator splits into itself. */
  lemma SplitWithout(s: string, sep: char)
    requires sep !in s
    ensures Split(s, sep) == [s]
  {
    if s != [] {
      assert s[0] in s;
      assert forall c :: c in s[1..] ==> c in s;
      SplitWithout(s[1..], sep);
      assert [s[0]] + s[1..] == s;
    }
  }

  /** The first separator ends the first piece. */
  lemma {:induction false} SplitAround(a: string, sep: char, b: string)
    requires sep !in a
    ensures Split(a + [sep] + b, sep) == [a] + Split(b, sep)
  {
    var s := a + [sep] + b;
    if a == [] {
      assert s[0] == sep && s[1..] == b;
    } else {
      assert s[0] == a[0] && s[1..] == a[1..] + [sep] + b;
      assert a[0] in a;
      assert forall c :: c in a[1..] ==> c in a;
      SplitAround(a[1..], sep, b);
      assert [a[0]] + a[1..] == a;
    }
  }

  /** Characters outside the class before the text do not change its first match. */
  lemma {:induction false} SkipNoneOfClass(pre: string, s: string, cls: CharClass)
    requires forall i :: 0 <= i < |pre| ==> !cls.Has(pre[i])
    ensures FirstMatch(pre + s, cls) == FirstMatch(s, cls)
  {
    if pre != [] {
      SkipNoneOfClass(pre[1..], s, cls);
      assert pre + s == [pre[0]] + (pre[1..] + s);
      SkipOutsideClass(pre[0], pre[1..] + s, cls);
    } else {
      assert pre + s == s;
    }
  }

  /** A run followed by a character outside the class is the first match. */
  lemma RunThenFirstMatch(run: string, c: char, rest: string, cls: CharClass)
    requires run != [] && forall j :: 0 <= j < |run| ==> cls.Has(run[j])
    requires !cls.Has(c)
    ensures FirstMatch(run + [c] + rest, cls) == Some(run)
  {
    var s := run + [c] + rest;
    assert MatchStart(s, cls) == 0;
    RunEnd(s, cls, 0, |run|);
    assert s[0..|run|] == run;
  }

  lemma {:induction false} RunEnd(s: string, cls: CharClass, i: nat, k: nat)
    requires i <= k < |s|
    requires forall j :: i <= j < k ==> cls.Has(s[j])
    requires !cls.Has(s[k])
    ensures MatchEnd(s, cls, i) == k
    decreases k - i
  {
    if i < k {
      RunEnd(s, cls, i + 1, k);
    }
  }

  /** The first match is made of characters of the text. */
  lemma FirstMatchChars(s: string, cls: CharClass)
    ensures FirstMatch(s, cls).Some? ==>
      forall j :: 0 <= j < |FirstMatch(s, cls).value| ==> FirstMatch(s, cls).value[j] in s
  {
    var i := MatchStart(s, cls);
    if i < |s| {
      var k := MatchEnd(s, cls, i);
      forall j | 0 <= j < k - i
        ensures s[i..k][j] in s
      {
        assert s[i..k][j] == s[i + j];
      }
    }
  }

  /** A text has no non-space characters exactly when it is all whitespace. */
  lemma {:induction false} NonSpacesEmpty(s: string)
    ensures NonSpaces(s) == [] <==> forall i :: 0 <= i < |s| ==> IsSpace(s[i])
  {
    if s != [] {
      NonSpacesEmpty(s[1..]);
      assert forall i :: 1 <= i < |s| ==> s[i] == s[1..][i - 1];
    }
  }

  /** Removal from a one-character text. */
  lemma RemoveAllSingle(c: char, drop: Deletion)
    ensures RemoveAll([c], drop) == if drop.Drops(c) then [] else [c]
  {
    assert [c][1..] == [];
  }

  /** A dropped character between two texts is as if it were not there. */
  lemma RemoveInside(a: string, c: char, b: string, drop: Deletion)
    requires drop.Drops(c)
    ensures RemoveAll(a + [c] + b, drop) == RemoveAll(a + b, drop)
  {
    RemoveAllAppend(a + [c], b, drop);
    RemoveAllAppend(a, [c], drop);
    RemoveAllAppend(a, b, drop);
    RemoveAllSingle(c, drop);
  }
}
