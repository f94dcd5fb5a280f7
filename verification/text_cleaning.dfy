/** M1.py `clean_text`, after its label-number removal: every run of
    whitespace becomes one space, the ends are stripped, and the text is
    lowercased. */
module TextCleaning {
  import opened Seqs

  /** Python's `str.isspace`, which is also what `\s`, `strip()` and
      `split()` use on text. */
  predicate IsSpace(c: char) {
    || c == ' '
    || ('\t' <= c <= '\r')
    || ('\U{1C}' <= c <= '\U{1F}')
    || c == '\U{85}' || c == '\U{A0}' || c == '\U{1680}'
    || ('\U{2000}' <= c <= '\U{200A}')
    || c == '\U{2028}' || c == '\U{2029}' || c == '\U{202F}' || c == '\U{205F}' || c == '\U{3000}'
  }

  predicate IsUpper(c: char) {
    'A' <= c <= 'Z'
  }

  /** No whitespace at either end. */
  predicate Trimmed(s: string) {
    s == [] || (!IsSpace(s[0]) && !IsSpace(s[|s| - 1]))
  }

  /** No two whitespace characters in a row. */
  predicate SingleSpaced(s: string) {
    forall i, j :: 0 <= i < |s| - 1 && j == i + 1 ==> !(IsSpace(s[i]) && IsSpace(s[j]))
  }

  /** The only whitespace character is the plain space. */
  predicate PlainSpaces(s: string) {
    forall i :: 0 <= i < |s| && IsSpace(s[i]) ==> s[i] == ' '
  }

  predicate NoUpper(s: string) {
    forall i :: 0 <= i < |s| ==> !IsUpper(s[i])
  }

  /** Lowercasing, for the ASCII letters. */
  function LowerChar(c: char): (d: char)
    ensures !IsUpper(d)
    ensures IsSpace(d) <==> IsSpace(c)
    ensures !IsUpper(c) ==> d == c
  {
    if IsUpper(c) then (c as int + 32) as char else c
  }

  function Lower(s: string): (r: string)
    ensures |r| == |s|
    ensures forall i :: 0 <= i < |s| ==> r[i] == LowerChar(s[i])
  {
    seq(|s|, i requires 0 <= i < |s| => LowerChar(s[i]))
  }

  /** The non-whitespace characters of `s`, in order: the words, without
      their separators. */
  function NonSpace(s: string): string {
    if |s| == 0 then []
    else if IsSpace(s[0]) then NonSpace(s[1..])
    else [s[0]] + NonSpace(s[1..])
  }

  /** `s` without its leading whitespace (`lstrip()`). */
  function TrimLeft(s: string): (r: string)
    ensures |r| <= |s| && r == s[|s| - |r|..]
    ensures r == [] || !IsSpace(r[0])
    ensures forall i :: 0 <= i < |s| - |r| ==> IsSpace(s[i])
  {
    if |s| == 0 || !IsSpace(s[0]) then s else TrimLeft(s[1..])
  }

  /** `s` without its trailing whitespace (`rstrip()`). */
  function TrimRight(s: string): (r: string)
    ensures |r| <= |s| && r == s[..|r|]
    ensures r == [] || !IsSpace(r[|r| - 1])
    ensures forall i :: |r| <= i < |s| ==> IsSpace(s[i])
  {
    if |s| == 0 || !IsSpace(s[|s| - 1]) then s else TrimRight(s[..|s| - 1])
  }

  /** Python's `strip()`: a slice of `s` that starts and ends with
      non-whitespace, everything cut off being whitespace. */
  function Strip(s: string): (r: string)
    ensures Trimmed(r)
    ensures |r| <= |TrimLeft(s)| && r == TrimLeft(s)[..|r|]
  {
    TrimRight(TrimLeft(s))
  }

  /** `re.sub(r'\s+', ' ', s)`: each maximal run of whitespace becomes a
      single space. */
  function Collapse(s: string): (r: string)
    ensures PlainSpaces(r) && SingleSpaced(r)
    ensures |s| == 0 <==> |r| == 0
    ensures |s| > 0 ==> (IsSpace(r[0]) <==> IsSpace(s[0]))
    ensures NonSpace(r) == NonSpace(s)
    decreases |s|
  {
    if |s| == 0 then []
    else if IsSpace(s[0]) then
      var rest := TrimLeft(s);
      SpacesThen(s, |s| - |rest|);
      [' '] + Collapse(rest)
    else
      [s[0]] + Collapse(s[1..])
  }

  /** Collapsing keeps a trailing whitespace run as one space and adds none:
      together with Collapse's contract and CollapseWords this fixes the
      `re.sub` result completely. */
  lemma {:induction false} CollapseLast(s: string)
    requires |s| > 0
    ensures |Collapse(s)| > 0
    ensures IsSpace(Collapse(s)[|Collapse(s)| - 1]) <==> IsSpace(s[|s| - 1])
    decreases |s|
  {
    if IsSpace(s[0]) {
      var rest := TrimLeft(s);
      assert Collapse(s) == [' '] + Collapse(rest);
      if |rest| > 0 {
        CollapseLast(rest);
        assert rest[|rest| - 1] == s[|s| - 1];
      }
    } else if |s| > 1 {
      assert Collapse(s) == [s[0]] + Collapse(s[1..]);
      CollapseLast(s[1..]);
    }
  }

  /** Collapsing whitespace runs keeps exactly the words of the text, in
      order: it neither splits nor merges nor drops any. */
  lemma {:induction false} CollapseWords(s: string)
    ensures Words(Collapse(s)) == Words(s)
    decreases |s|
  {
    if |s| == 0 {
    } else if IsSpace(s[0]) {
      CollapseWords(TrimLeft(s));
      CollapseSpaceStep(s);
    } else {
      CollapseWords(s[1..]);
      CollapseWordStep(s);
    }
  }

  lemma CollapseSpaceStep(s: string)
    requires s != [] && IsSpace(s[0])
    requires Words(Collapse(TrimLeft(s))) == Words(TrimLeft(s))
    ensures Words(Collapse(s)) == Words(s)
  {
    WordsSkipSpace(s);
    WordsAfterSpace(' ', Collapse(TrimLeft(s)));
  }

  lemma CollapseWordStep(s: string)
    requires s != [] && !IsSpace(s[0])
    requires Words(Collapse(s[1..])) == Words(s[1..])
    ensures Words(Collapse(s)) == Words(s)
  {
    var x, y := Collapse(s[1..]), s[1..];
    assert Collapse(s) == [s[0]] + x;
    assert (x == [] || IsSpace(x[0])) <==> (y == [] || IsSpace(y[0]));
    ConsSameWords(s[0], x, y);
    ConsTail(s);
  }

  /** M1.py:15-17 `clean_text`, without the label-number removal. */
  function CleanText(s: string): (r: string)
    ensures Trimmed(r) && SingleSpaced(r) && PlainSpaces(r) && NoUpper(r)
    ensures NonSpace(r) == Lower(NonSpace(s))
    ensures r == [] <==> forall i :: 0 <= i < |s| ==> IsSpace(s[i])
    ensures r == Lower(JoinSpace(Words(s)))
  {
    var c := Collapse(s);
    StripFacts(c);
    LowerFacts(Strip(c));
    EmptyIffAllSpace(s);
    CollapseWords(s);
    WordsStrip(c);
    JoinSpaceWords(Strip(c));
    Lower(Strip(c))
  }

  /** A word in the sense of `split()`: a non-empty run of non-whitespace. */
  predicate IsWord(w: string) {
    w != [] && forall i :: 0 <= i < |w| ==> !IsSpace(w[i])
  }

  /** The longest prefix of `s` holding no whitespace. */
  function Word(s: string): (w: string)
    ensures |w| <= |s| && w == s[..|w|]
    ensures forall i :: 0 <= i < |w| ==> !IsSpace(w[i])
    ensures |w| < |s| ==> IsSpace(s[|w|])
  {
    if |s| == 0 || IsSpace(s[0]) then [] else [s[0]] + Word(s[1..])
  }

  /** Python's `str.split()` with no argument: the maximal runs of
      non-whitespace, in order. */
  function Words(s: string): seq<string>
    decreases |s|
  {
    var t := TrimLeft(s);
    if t == [] then []
    else
      var w := Word(t);
      assert |w| > 0 by { assert !IsSpace(t[0]); }
      [w] + Words(t[|w|..])
  }

  /** Python's `' '.join(ws)`. */
  function JoinSpace(ws: seq<string>): string {
    if |ws| == 0 then []
    else if |ws| == 1 then ws[0]
    else ws[0] + " " + JoinSpace(ws[1..])
  }

  /** `lstrip()` stops at the first non-whitespace position. */
  lemma TrimLeftAt(s: string, k: nat)
    requires k <= |s| && forall i :: 0 <= i < k ==> IsSpace(s[i])
    requires k == |s| || !IsSpace(s[k])
    ensures TrimLeft(s) == s[k..]
  {
  }

  /** `Word` stops at the first whitespace position. */
  lemma WordAt(s: string, k: nat)
    requires k <= |s| && forall i :: 0 <= i < k ==> !IsSpace(s[i])
    requires k == |s| || IsSpace(s[k])
    ensures Word(s) == s[..k]
  {
  }

  /** Leading whitespace separates no words. */
  lemma WordsSkipSpace(s: string)
    ensures Words(TrimLeft(s)) == Words(s)
  {
    TrimLeftAt(TrimLeft(s), 0);
  }

  lemma WordsAfterSpace(c: char, x: string)
    requires IsSpace(c)
    ensures Words([c] + x) == Words(x)
  {
    assert ([c] + x)[1..] == x;
  }

  lemma WordCons(c: char, x: string)
    requires !IsSpace(c)
    ensures Word([c] + x) == [c] + Word(x)
  {
    assert ([c] + x)[1..] == x;
  }

  /** A text starting with a non-space splits into its first word and the
      words of what follows that word. */
  lemma WordsFirst(s: string)
    requires s != [] && !IsSpace(s[0])
    ensures Words(s) == [Word(s)] + Words(s[|Word(s)|..])
  {
    TrimLeftAt(s, 0);
  }

  /** A non-whitespace character put in front of `x` starts a word of its
      own before whitespace and joins the first word of `x` otherwise. */
  lemma WordsCons(c: char, x: string)
    requires !IsSpace(c)
    ensures x == [] || IsSpace(x[0]) ==> Words([c] + x) == [[c]] + Words(x)
    ensures x != [] && !IsSpace(x[0]) ==>
      |Words(x)| > 0 && Words([c] + x) == [[c] + Words(x)[0]] + Words(x)[1..]
  {
    var s := [c] + x;
    WordsFirst(s);
    WordCons(c, x);
    assert s[|Word(s)|..] == x[|Word(x)|..];
    if x != [] && !IsSpace(x[0]) {
      WordsFirst(x);
    }
  }

  /** Texts with the same words that agree on starting with whitespace
      keep the same words when a non-space is put in front of both. */
  lemma ConsSameWords(c: char, x: string, y: string)
    requires !IsSpace(c) && Words(x) == Words(y)
    requires (x == [] || IsSpace(x[0])) <==> (y == [] || IsSpace(y[0]))
    ensures Words([c] + x) == Words([c] + y)
  {
    WordsCons(c, x);
    WordsCons(c, y);
  }

  lemma TrimLeftAppend(a: string, b: string)
    requires TrimLeft(a) != []
    ensures TrimLeft(a + b) == TrimLeft(a) + b
  {
    var k := |a| - |TrimLeft(a)|;
    assert forall i :: 0 <= i < k ==> (a + b)[i] == a[i];
    assert (a + b)[k] == a[k];
    TrimLeftAt(a + b, k);
    AppendDrop(a, b, k);
  }

  /** Whitespace after a text does not lengthen its first word. */
  lemma WordAppend(t: string, b: string)
    requires b == [] || IsSpace(b[0])
    ensures Word(t + b) == Word(t)
    ensures (t + b)[|Word(t)|..] == t[|Word(t)|..] + b
  {
    var w := Word(t);
    assert forall i :: 0 <= i < |w| ==> (t + b)[i] == w[i];
    assert |w| < |t| ==> (t + b)[|w|] == t[|w|];
    assert |w| == |t| < |t + b| ==> (t + b)[|w|] == b[0];
    WordAt(t + b, |w|);
    AppendTake(t, b, |w|);
    AppendDrop(t, b, |w|);
  }

  /** Trailing whitespace separates no words. */
  lemma {:induction false} WordsSpacesAfter(a: string, b: string)
    requires forall i :: 0 <= i < |b| ==> IsSpace(b[i])
    ensures Words(a + b) == Words(a)
    decreases |a|
  {
    var t := TrimLeft(a);
    if t == [] {
      TrimLeftAt(a + b, |a + b|);
    } else {
      TrimLeftAppend(a, b);
      WordAppend(t, b);
      WordsSpacesAfter(t[|Word(t)|..], b);
    }
  }

  /** `strip()` keeps the words. */
  lemma WordsStrip(x: string)
    ensures Words(Strip(x)) == Words(x)
  {
    var l := TrimLeft(x);
    var tail := TrailingSpaces(l);
    WordsSkipSpace(x);
    WordsSpacesAfter(TrimRight(l), tail);
  }

  /** What `rstrip()` cuts off is whitespace. */
  lemma TrailingSpaces(l: string) returns (tail: string)
    ensures l == TrimRight(l) + tail
    ensures forall i :: 0 <= i < |tail| ==> IsSpace(tail[i])
  {
    var r := TrimRight(l);
    tail := l[|r|..];
    assert forall i :: 0 <= i < |tail| ==> tail[i] == l[|r| + i];
    TakeDrop(l, |r|);
  }

  /** A text whose first word is followed by one whitespace character and
      a non-space splits into that word and the words after the whitespace. */
  lemma WordsSplit(t: string)
    requires t != [] && !IsSpace(t[0])
    requires |Word(t)| < |t| - 1 && !IsSpace(t[|Word(t)| + 1])
    ensures |Words(t[|Word(t)| + 1..])| > 0
    ensures Words(t) == [Word(t)] + Words(t[|Word(t)| + 1..])
    ensures t == Word(t) + [t[|Word(t)|]] + t[|Word(t)| + 1..]
  {
    var k := |Word(t)|;
    WordsFirst(t);
    AfterSpace(t, k);
    WordsFirst(t[k + 1..]);
  }

  lemma AfterSpace(t: string, k: nat)
    requires k < |t| - 1 && IsSpace(t[k])
    ensures Words(t[k..]) == Words(t[k + 1..])
    ensures t == t[..k] + [t[k]] + t[k + 1..]
  {
    assert t[k..] == [t[k]] + t[k + 1..];
    WordsAfterSpace(t[k], t[k + 1..]);
  }

  /** In a stripped text with single plain spaces, a word that does not
      reach the end is followed by one space and then by another stripped
      text with single plain spaces. */
  lemma CleanTail(t: string)
    requires Trimmed(t) && SingleSpaced(t) && PlainSpaces(t)
    requires t != [] && |Word(t)| < |t|
    ensures |Word(t)| < |t| - 1 && t[|Word(t)|] == ' ' && !IsSpace(t[|Word(t)| + 1])
    ensures var u := t[|Word(t)| + 1..]; Trimmed(u) && SingleSpaced(u) && PlainSpaces(u)
  {
    var k := |Word(t)|;
    assert IsSpace(t[k]);
    var u := t[k + 1..];
    SliceSpacing(t, k + 1, |t|);
    assert t[k + 1..|t|] == u;
    assert u[0] == t[k + 1];
    assert u[|u| - 1] == t[|t| - 1];
  }

  /** A stripped text whose whitespace is single plain spaces is its words
      joined by single spaces. */
  lemma {:induction false} JoinSpaceWords(t: string)
    requires Trimmed(t) && SingleSpaced(t) && PlainSpaces(t)
    ensures JoinSpace(Words(t)) == t
    decreases |t|
  {
    if t != [] {
      if |Word(t)| == |t| {
        WholeWord(t);
      } else {
        CleanTail(t);
        JoinSpaceWords(t[|Word(t)| + 1..]);
        JoinWordsStep(t);
      }
    }
  }

  /** A text that is one word joins back to itself. */
  lemma WholeWord(t: string)
    requires t != [] && !IsSpace(t[0]) && |Word(t)| == |t|
    ensures JoinSpace(Words(t)) == t
  {
    WordsFirst(t);
    assert t[|t|..] == [];
    assert Words([]) == [];
  }

  /** One step of `JoinSpaceWords`: the first word, one space, and the rest
      joining back to itself. */
  lemma JoinWordsStep(t: string)
    requires t != [] && !IsSpace(t[0])
    requires |Word(t)| < |t| - 1 && t[|Word(t)|] == ' ' && !IsSpace(t[|Word(t)| + 1])
    requires JoinSpace(Words(t[|Word(t)| + 1..])) == t[|Word(t)| + 1..]
    ensures JoinSpace(Words(t)) == t
  {
    WordsSplit(t);
    var ws := Words(t[|Word(t)| + 1..]);
    assert ([Word(t)] + ws)[1..] == ws;
  }

  /** A word on its own is its only word. */
  lemma SingleWord(w: string)
    requires IsWord(w)
    ensures Words(w) == [w]
  {
    WordOfWord(w);
    WordsFirst(w);
    assert w[|w|..] == [];
    assert Words([]) == [];
    assert [w] + [] == [w];
  }

  lemma WordOfWord(w: string)
    requires IsWord(w)
    ensures Word(w) == w
  {
    WordAt(w, |w|);
    assert w[..|w|] == w;
  }

  /** A word, a space and a text starting with a non-space: the word comes
      first, then the words of the text. */
  lemma WordsJoinTwo(w: string, j: string)
    requires IsWord(w) && j != [] && !IsSpace(j[0])
    ensures Words(w + " " + j) == [w] + Words(j)
  {
    var s := w + " " + j;
    assert forall i :: 0 <= i < |w| ==> s[i] == w[i];
    assert s[|w|] == ' ' && s[|w| + 1] == j[0];
    WordAt(s, |w|);
    assert s[..|w|] == w && s[|w| + 1..] == j;
    WordsSplit(s);
  }

  /** Splitting words joined by single spaces gives the words back. */
  lemma {:induction false} WordsJoinSpace(ws: seq<string>)
    requires forall k :: 0 <= k < |ws| ==> IsWord(ws[k])
    ensures Words(JoinSpace(ws)) == ws
    decreases |ws|
  {
    if |ws| == 0 {
      assert Words([]) == [];
    } else if |ws| == 1 {
      SingleWord(ws[0]);
    } else {
      WordsJoinSpace(ws[1..]);
      JoinStep(ws);
    }
  }

  /** One step of `WordsJoinSpace`: the first word in front of the rest. */
  lemma JoinStep(ws: seq<string>)
    requires |ws| > 1 && IsWord(ws[0]) && IsWord(ws[1])
    requires Words(JoinSpace(ws[1..])) == ws[1..]
    ensures Words(JoinSpace(ws)) == ws
  {
    var j := JoinSpace(ws[1..]);
    assert JoinSpace(ws) == ws[0] + " " + j;
    JoinSpaceStart(ws[1..]);
    WordsJoinTwo(ws[0], j);
    ConsTail(ws);
  }

  /** Joined words start with the first letter of the first word. */
  lemma JoinSpaceStart(ws: seq<string>)
    requires |ws| > 0 && |ws[0]| > 0
    ensures |JoinSpace(ws)| > 0 && JoinSpace(ws)[0] == ws[0][0]
  {
  }


  lemma NonSpaceAppend(a: string, b: string)
    ensures NonSpace(a + b) == NonSpace(a) + NonSpace(b)
  {
    if |a| > 0 {
      var ab := a + b;
      assert ab[0] == a[0] && ab[1..] == a[1..] + b;
      NonSpaceAppend(a[1..], b);
      if !IsSpace(a[0]) {
        assert NonSpace(ab) == [a[0]] + (NonSpace(a[1..]) + NonSpace(b));
        assert NonSpace(a) == [a[0]] + NonSpace(a[1..]);
      }
    } else {
      assert a + b == b;
    }
  }

  lemma NonSpaceOfSpaces(s: string)
    requires forall i :: 0 <= i < |s| ==> IsSpace(s[i])
    ensures NonSpace(s) == []
  {
    if |s| > 0 {
      NonSpaceOfSpaces(s[1..]);
    }
  }

  /** A whitespace prefix of length `k` contributes nothing to `NonSpace`. */
  lemma SpacesThen(s: string, k: nat)
    requires k <= |s| && forall i :: 0 <= i < k ==> IsSpace(s[i])
    ensures NonSpace(s) == NonSpace(s[k..])
  {
    NonSpaceOfSpaces(s[..k]);
    NonSpaceAppend(s[..k], s[k..]);
    assert s == s[..k] + s[k..];
  }

  /** A whitespace suffix from position `k` on contributes nothing to `NonSpace`. */
  lemma SpacesAfter(s: string, k: nat)
    requires k <= |s| && forall i :: k <= i < |s| ==> IsSpace(s[i])
    ensures NonSpace(s) == NonSpace(s[..k])
  {
    var tail := s[k..];
    assert forall i :: 0 <= i < |tail| ==> tail[i] == s[k + i];
    NonSpaceOfSpaces(tail);
    NonSpaceAppend(s[..k], tail);
    assert s == s[..k] + tail;
  }

  /** Lowercasing keeps whitespace where it is and removes every capital. */
  lemma LowerFacts(s: string)
    ensures NoUpper(Lower(s))
    ensures Trimmed(s) ==> Trimmed(Lower(s))
    ensures SingleSpaced(s) ==> SingleSpaced(Lower(s))
    ensures PlainSpaces(s) ==> PlainSpaces(Lower(s))
    ensures NonSpace(Lower(s)) == Lower(NonSpace(s))
    ensures Lower(s) == [] <==> s == []
  {
    NonSpaceLower(s);
  }

  lemma NonSpaceLower(s: string)
    ensures NonSpace(Lower(s)) == Lower(NonSpace(s))
  {
    if |s| > 0 {
      assert Lower(s)[1..] == Lower(s[1..]);
      NonSpaceLower(s[1..]);
    }
  }

  /** Stripping keeps the words of `s`. */
  lemma StripNonSpace(s: string)
    ensures NonSpace(Strip(s)) == NonSpace(s)
  {
    var l := TrimLeft(s);
    SpacesThen(s, |s| - |l|);
    SpacesAfter(l, |TrimRight(l)|);
  }

  /** A slice of `s` has the spacing discipline of `s`. */
  lemma SliceSpacing(s: string, a: nat, b: nat)
    requires a <= b <= |s|
    ensures SingleSpaced(s) ==> SingleSpaced(s[a..b])
    ensures PlainSpaces(s) ==> PlainSpaces(s[a..b])
  {
    assert forall i :: 0 <= i < b - a ==> s[a..b][i] == s[a + i];
  }

  /** Stripping keeps the words and the spacing discipline of `s`. */
  lemma StripFacts(s: string)
    ensures NonSpace(Strip(s)) == NonSpace(s)
    ensures SingleSpaced(s) ==> SingleSpaced(Strip(s))
    ensures PlainSpaces(s) ==> PlainSpaces(Strip(s))
  {
    StripNonSpace(s);
    var a := StripSlice(s);
    SliceSpacing(s, a, a + |Strip(s)|);
  }

  /** A non-empty `strip()` result shows a non-whitespace character of its
      argument. */
  lemma StripNonEmpty(s: string)
    ensures |Strip(s)| <= |s|
    ensures |Strip(s)| > 0 ==> exists i :: 0 <= i < |s| && !IsSpace(s[i])
  {
    var k := |s| - |TrimLeft(s)|;
    if |Strip(s)| > 0 {
      assert s[k] == TrimLeft(s)[0] == Strip(s)[0];
    }
  }

  /** `strip()` returns a slice of its argument. */
  lemma StripSlice(s: string) returns (a: nat)
    ensures a + |Strip(s)| <= |s| && Strip(s) == s[a..a + |Strip(s)|]
  {
    a := |s| - |TrimLeft(s)|;
    DropTake(s, a, |Strip(s)|);
  }

  /** Collapsing and stripping leave nothing exactly when there was nothing
      but whitespace. */
  lemma EmptyIffAllSpace(s: string)
    ensures Strip(Collapse(s)) == [] <==> forall i :: 0 <= i < |s| ==> IsSpace(s[i])
  {
    var c := Collapse(s);
    StripFacts(c);
    if forall i :: 0 <= i < |s| ==> IsSpace(s[i]) {
      NonSpaceOfSpaces(s);
      NonSpaceNonEmpty(Strip(c));
    } else {
      var i :| 0 <= i < |s| && !IsSpace(s[i]);
      NonSpaceHas(s, i);
    }
  }

  /** A text that starts with a non-space keeps something in `NonSpace`. */
  lemma NonSpaceNonEmpty(s: string)
    requires s == [] || !IsSpace(s[0])
    ensures NonSpace(s) == [] ==> s == []
  {
  }

  lemma {:induction false} NonSpaceHas(s: string, i: nat)
    requires i < |s| && !IsSpace(s[i])
    ensures NonSpace(s) != []
  {
    if i > 0 && IsSpace(s[0]) {
      NonSpaceHas(s[1..], i - 1);
    }
  }

  /** Collapsing changes nothing in a text whose whitespace is already
      single plain spaces. */
  lemma {:induction false} CollapseFixed(t: string)
    requires PlainSpaces(t) && SingleSpaced(t)
    ensures Collapse(t) == t
    decreases |t|
  {
    if |t| > 0 {
      SliceSpacing(t, 1, |t|);
      CollapseFixed(t[1..]);
      if IsSpace(t[0]) {
        assert TrimLeft(t) == t[1..] by {
          if |t| > 1 {
            assert !IsSpace(t[1]);
            assert TrimLeft(t[1..]) == t[1..];
          }
        }
        assert t == [' '] + t[1..];
      }
    }
  }

  /** Cleaning an already cleaned text changes nothing. */
  lemma CleanTextIdempotent(s: string)
    ensures CleanText(CleanText(s)) == CleanText(s)
  {
    var t := CleanText(s);
    CollapseFixed(t);
    assert TrimLeft(t) == t;
    assert TrimRight(t) == t;
    assert Lower(t) == t;
  }
}
