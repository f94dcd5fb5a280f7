/** M1.py `make_pdf_safe`: typographic characters are replaced by ASCII
    look-alikes, one `str.replace` per table entry in table order, and then
    everything outside Latin-1 is dropped (`encode("latin-1", "ignore")`). */
module PdfSafe {

  /** The replacement table, in the dictionary's insertion order. */
  const Replacements: seq<(char, string)> := [
    ('\U{2022}', "-"),      // bullet
    ('\U{2714}', "OK"),     // heavy check mark
    ('\U{274C}', "X"),      // cross mark
    ('\U{2194}', "<->"),    // left right arrow
    ('\U{2013}', "-"),      // en dash
    ('\U{2014}', "-"),      // em dash
    ('\U{201C}', "\""),     // left double quotation mark
    ('\U{201D}', "\""),     // right double quotation mark
    ('\U{2019}', "'"),      // right single quotation mark
    ('\U{2018}', "'")       // left single quotation mark
  ]

  predicate IsLatin1(c: char) {
    c <= '\U{FF}'
  }

  predicate AllLatin1(s: string) {
    forall i :: 0 <= i < |s| ==> IsLatin1(s[i])
  }

  /** `s.replace(k, v)` for a one-character `k`. */
  function ReplaceChar(s: string, k: char, v: string): (r: string)
    ensures k !in v ==> k !in r
    ensures k !in s ==> r == s
  {
    if |s| == 0 then []
    else (if s[0] == k then v else [s[0]]) + ReplaceChar(s[1..], k, v)
  }

  /** The `for k, v in replacements.items()` loop. A text holding none of
      the table's characters passes it unchanged. */
  function ReplaceAll(s: string, table: seq<(char, string)>): (r: string)
    ensures (forall i, e :: 0 <= i < |s| && 0 <= e < |table| ==> s[i] != table[e].0) ==> r == s
    decreases table
  {
    if |table| == 0 then s
    else
      assert forall e :: 0 <= e < |table| - 1 ==> table[1..][e] == table[e + 1];
      ReplaceAll(ReplaceChar(s, table[0].0, table[0].1), table[1..])
  }

  /** `encode("latin-1", "ignore").decode("latin-1")`: characters beyond
      U+00FF are dropped, the others kept in order. */
  function KeepLatin1(s: string): (r: string)
    ensures AllLatin1(r)
    ensures AllLatin1(s) ==> r == s
  {
    if |s| == 0 then []
    else (if IsLatin1(s[0]) then [s[0]] else []) + KeepLatin1(s[1..])
  }

  /** M1.py:206-221. */
  function MakePdfSafe(s: string): (r: string)
    ensures AllLatin1(r)
  {
    KeepLatin1(ReplaceAll(s, Replacements))
  }

  /** The same transformation stated one character at a time: a table
      character becomes its replacement, another Latin-1 character stays,
      anything else disappears. */
  function SafeChar(c: char): string {
    if c == '\U{2022}' || c == '\U{2013}' || c == '\U{2014}' then "-"
    else if c == '\U{2714}' then "OK"
    else if c == '\U{274C}' then "X"
    else if c == '\U{2194}' then "<->"
    else if c == '\U{201C}' || c == '\U{201D}' then "\""
    else if c == '\U{2019}' || c == '\U{2018}' then "'"
    else if IsLatin1(c) then [c]
    else []
  }

  function SafeChars(s: string): string {
    if |s| == 0 then [] else SafeChar(s[0]) + SafeChars(s[1..])
  }

  lemma {:induction false} ReplaceCharAppend(a: string, b: string, k: char, v: string)
    ensures ReplaceChar(a + b, k, v) == ReplaceChar(a, k, v) + ReplaceChar(b, k, v)
  {
    if |a| == 0 {
      assert a + b == b;
    } else {
      var t := a[1..];
      assert (a + b)[0] == a[0] && (a + b)[1..] == t + b;
      ReplaceCharAppend(t, b, k, v);
      var h := if a[0] == k then v else [a[0]];
      assert ReplaceChar(a + b, k, v) == h + ReplaceChar(t + b, k, v);
      assert ReplaceChar(a, k, v) == h + ReplaceChar(t, k, v);
    }
  }

  lemma ReplaceAllAppend(a: string, b: string, table: seq<(char, string)>)
    ensures ReplaceAll(a + b, table) == ReplaceAll(a, table) + ReplaceAll(b, table)
    decreases table
  {
    if |table| > 0 {
      ReplaceCharAppend(a, b, table[0].0, table[0].1);
      ReplaceAllAppend(ReplaceChar(a, table[0].0, table[0].1), ReplaceChar(b, table[0].0, table[0].1), table[1..]);
    }
  }

  lemma {:induction false} KeepLatin1Append(a: string, b: string)
    ensures KeepLatin1(a + b) == KeepLatin1(a) + KeepLatin1(b)
  {
    if |a| == 0 {
      assert a + b == b;
    } else {
      var t := a[1..];
      assert (a + b)[0] == a[0] && (a + b)[1..] == t + b;
      KeepLatin1Append(t, b);
      var h := if IsLatin1(a[0]) then [a[0]] else [];
      assert KeepLatin1(a + b) == h + KeepLatin1(t + b);
      assert KeepLatin1(a) == h + KeepLatin1(t);
    }
  }

  /** The first table entry for `c`, or `c` itself. */
  function Lookup(c: char, table: seq<(char, string)>): string {
    if |table| == 0 then [c]
    else if table[0].0 == c then table[0].1
    else Lookup(c, table[1..])
  }

  /** No replacement text contains a key of the table. */
  predicate ValuesKeyFree(table: seq<(char, string)>) {
    forall e1, e2, i :: 0 <= e1 < |table| && 0 <= e2 < |table| && 0 <= i < |table[e1].1| ==>
      table[e1].1[i] != table[e2].0
  }

  /** On one character, the replacement loop is a table lookup. */
  lemma {:induction false} ReplaceAllSingle(c: char, table: seq<(char, string)>)
    requires ValuesKeyFree(table)
    ensures ReplaceAll([c], table) == Lookup(c, table)
    decreases table
  {
    if |table| > 0 {
      var rest := table[1..];
      assert ValuesKeyFree(rest) by {
        forall e1, e2, i | 0 <= e1 < |rest| && 0 <= e2 < |rest| && 0 <= i < |rest[e1].1|
          ensures rest[e1].1[i] != rest[e2].0
        {
          assert rest[e1] == table[e1 + 1] && rest[e2] == table[e2 + 1];
        }
      }
      assert ReplaceChar([c], table[0].0, table[0].1) == if c == table[0].0 then table[0].1 else [c] by {
        assert [c][1..] == [];
      }
      if c != table[0].0 {
        ReplaceAllSingle(c, rest);
      }
    }
  }

  /** Every key lies beyond U+2000 and every replacement text is ASCII. */
  lemma ReplacementsKeyFree()
    ensures ValuesKeyFree(Replacements)
  {
    assert forall e :: 0 <= e < |Replacements| ==> Replacements[e].0 >= '\U{2000}';
    assert forall e, i :: 0 <= e < |Replacements| && 0 <= i < |Replacements[e].1| ==> Replacements[e].1[i] < '\U{80}';
  }

  lemma {:induction false} LookupAbsent(c: char, table: seq<(char, string)>)
    requires forall e :: 0 <= e < |table| ==> table[e].0 != c
    ensures Lookup(c, table) == [c]
  {
    if |table| > 0 {
      assert forall e :: 0 <= e < |table[1..]| ==> table[1..][e] == table[e + 1];
      LookupAbsent(c, table[1..]);
    }
  }

  /** No key occurs twice in the table. */
  predicate KeysDistinct(table: seq<(char, string)>) {
    forall d, e :: 0 <= d < e < |table| ==> table[d].0 != table[e].0
  }

  lemma ReplacementsKeysDistinct()
    ensures KeysDistinct(Replacements)
  {
  }

  /** With distinct keys, the lookup of entry `e`'s key finds entry `e`. */
  lemma {:induction false} LookupAt(table: seq<(char, string)>, e: nat)
    requires KeysDistinct(table) && e < |table|
    ensures Lookup(table[e].0, table) == table[e].1
  {
    if e > 0 {
      var rest := table[1..];
      assert rest[e - 1] == table[e];
      assert KeysDistinct(rest) by {
        forall d1, d2 | 0 <= d1 < d2 < |rest| ensures rest[d1].0 != rest[d2].0 {
          assert rest[d1] == table[d1 + 1] && rest[d2] == table[d2 + 1];
        }
      }
      LookupAt(rest, e - 1);
    }
  }

  /** Looking a character up in the table, then dropping what is not
      Latin-1, is the per-character transformation. */
  lemma LookupReplacements(c: char)
    ensures KeepLatin1(Lookup(c, Replacements)) == SafeChar(c)
  {
    var t := Replacements;
    if exists e :: 0 <= e < |t| && t[e].0 == c {
      var e :| 0 <= e < |t| && t[e].0 == c;
      ReplacementsKeysDistinct();
      LookupAt(t, e);
      KeyValue(e);
    } else {
      LookupAbsent(c, t);
      NotAKey(c);
    }
  }

  /** Each table entry maps its key to what `SafeChar` gives for it. */
  lemma KeyValue(e: nat)
    requires e < |Replacements|
    ensures KeepLatin1(Replacements[e].1) == SafeChar(Replacements[e].0)
  {
    var t := Replacements;
    if e == 0 { assert t[0] == ('\U{2022}', "-"); assert SafeChar('\U{2022}') == "-"; AsciiKept("-"); }
    else if e == 1 { assert t[1] == ('\U{2714}', "OK"); assert SafeChar('\U{2714}') == "OK"; AsciiKept("OK"); }
    else if e == 2 { assert t[2] == ('\U{274C}', "X"); assert SafeChar('\U{274C}') == "X"; AsciiKept("X"); }
    else if e == 3 { assert t[3] == ('\U{2194}', "<->"); assert SafeChar('\U{2194}') == "<->"; AsciiKept("<->"); }
    else if e == 4 { assert t[4] == ('\U{2013}', "-"); assert SafeChar('\U{2013}') == "-"; AsciiKept("-"); }
    else if e == 5 { assert t[5] == ('\U{2014}', "-"); assert SafeChar('\U{2014}') == "-"; AsciiKept("-"); }
    else if e == 6 { assert t[6] == ('\U{201C}', "\""); assert SafeChar('\U{201C}') == "\""; AsciiKept("\""); }
    else if e == 7 { assert t[7] == ('\U{201D}', "\""); assert SafeChar('\U{201D}') == "\""; AsciiKept("\""); }
    else if e == 8 { assert t[8] == ('\U{2019}', "'"); assert SafeChar('\U{2019}') == "'"; AsciiKept("'"); }
    else { assert t[9] == ('\U{2018}', "'"); assert SafeChar('\U{2018}') == "'"; AsciiKept("'"); }
  }

  /** Plain ASCII text passes the Latin-1 filter unchanged. */
  lemma AsciiKept(v: string)
    requires forall i :: 0 <= i < |v| ==> v[i] < '\U{80}'
    ensures KeepLatin1(v) == v
  {
    assert AllLatin1(v);
  }

  /** A character that is no key is kept exactly when it is Latin-1. */
  lemma NotAKey(c: char)
    requires forall e :: 0 <= e < |Replacements| ==> Replacements[e].0 != c
    ensures KeepLatin1([c]) == SafeChar(c)
  {
    var t := Replacements;
    assert t[0].0 != c && t[1].0 != c && t[2].0 != c && t[3].0 != c && t[4].0 != c;
    assert t[5].0 != c && t[6].0 != c && t[7].0 != c && t[8].0 != c && t[9].0 != c;
    assert [c][1..] == [];
  }

  /** What the replacement loop does to one character. */
  lemma ReplaceAllChar(c: char)
    ensures KeepLatin1(ReplaceAll([c], Replacements)) == SafeChar(c)
  {
    ReplacementsKeyFree();
    ReplaceAllSingle(c, Replacements);
    LookupReplacements(c);
  }

  /** Each character of `s` sent through the replacement loop on its own. */
  function ReplaceEach(s: string, table: seq<(char, string)>): string {
    if |s| == 0 then [] else KeepLatin1(ReplaceAll([s[0]], table)) + ReplaceEach(s[1..], table)
  }

  /** With one-character keys, the loop over the table distributes over the
      characters of the text. */
  lemma {:induction false} ReplaceAllEach(s: string, table: seq<(char, string)>)
    ensures KeepLatin1(ReplaceAll(s, table)) == ReplaceEach(s, table)
  {
    if |s| > 0 {
      assert s == [s[0]] + s[1..];
      ReplaceAllAppend([s[0]], s[1..], table);
      KeepLatin1Append(ReplaceAll([s[0]], table), ReplaceAll(s[1..], table));
      ReplaceAllEach(s[1..], table);
    }
  }

  lemma {:induction false} ReplaceEachSafe(s: string, table: seq<(char, string)>)
    requires forall c :: KeepLatin1(ReplaceAll([c], table)) == SafeChar(c)
    ensures ReplaceEach(s, table) == SafeChars(s)
  {
    if |s| > 0 {
      ReplaceEachSafe(s[1..], table);
    }
  }

  /** The sequential replacements equal the character-wise reference, because
      every key is a single character and no replacement text contains a key. */
  lemma MakePdfSafeCharwise(s: string)
    ensures MakePdfSafe(s) == SafeChars(s)
  {
    forall c ensures KeepLatin1(ReplaceAll([c], Replacements)) == SafeChar(c) {
      ReplaceAllChar(c);
    }
    ReplaceAllEach(s, Replacements);
    ReplaceEachSafe(s, Replacements);
  }

  /** The output is pure Latin-1 and contains none of the table characters. */
  lemma {:induction false} SafeCharsOutput(s: string)
    ensures AllLatin1(SafeChars(s))
    ensures forall i, e :: 0 <= i < |SafeChars(s)| && 0 <= e < |Replacements| ==> SafeChars(s)[i] != Replacements[e].0
  {
    if |s| > 0 {
      SafeCharsOutput(s[1..]);
      var h, t := SafeChar(s[0]), SafeChars(s[1..]);
      assert SafeChars(s) == h + t;
      assert forall i :: 0 <= i < |h| ==> IsLatin1(h[i]);
    }
  }

  /** Latin-1 text has nothing to replace and nothing to drop. */
  lemma {:induction false} SafeCharsLatin1(s: string)
    requires AllLatin1(s)
    ensures SafeChars(s) == s
  {
    if |s| > 0 {
      SafeCharsLatin1(s[1..]);
      assert s == [s[0]] + s[1..];
    }
  }

  /** `make_pdf_safe` leaves Latin-1 text unchanged and is idempotent. */
  lemma MakePdfSafeIdempotent(s: string)
    ensures AllLatin1(MakePdfSafe(s))
    ensures AllLatin1(s) ==> MakePdfSafe(s) == s
    ensures MakePdfSafe(MakePdfSafe(s)) == MakePdfSafe(s)
  {
    var r := MakePdfSafe(s);
    MakePdfSafeCharwise(s);
    MakePdfSafeCharwise(r);
    SafeCharsOutput(s);
    SafeCharsLatin1(r);
    if AllLatin1(s) {
      SafeCharsLatin1(s);
    }
  }
}
