/** The two string operations the authorizer relies on: Python's argument-less
    `str.split()` and lower-casing, as far as the comparisons in the authorizer need it. */
module Text {

  /** The characters for which Python's `str.isspace()` holds, which are exactly the
      separators of an argument-less `str.split()`. */
  predicate IsSpace(c: char) {
    || ('\t' <= c <= '\r')              // tab, line feed, vertical tab, form feed, carriage return
    || ('\U{1C}' <= c <= '\U{1F}')      // file, group, record and unit separators
    || c == ' '
    || c == '\U{85}' || c == '\U{A0}' || c == '\U{1680}'
    || ('\U{2000}' <= c <= '\U{200A}')
    || c == '\U{2028}' || c == '\U{2029}' || c == '\U{202F}' || c == '\U{205F}' || c == '\U{3000}'
  }

  predicate NoSpace(w: string) {
    forall i :: 0 <= i < |w| ==> !IsSpace(w[i])
  }

  /** What `split()` can produce: a non-empty run of non-whitespace characters. */
  predicate IsWord(w: string) {
    w != [] && NoSpace(w)
  }

  /** The length of the longest prefix of `s` free of whitespace. */
  function WordLength(s: string): (n: nat)
    ensures n <= |s| && NoSpace(s[..n])
    ensures n < |s| ==> IsSpace(s[n])
  {
    if s == [] || IsSpace(s[0]) then 0 else 1 + WordLength(s[1..])
  }

  /** Python's `s.split()`: runs of whitespace separate the parts, and leading or
      trailing whitespace yields no empty part. */
  function Split(s: string): (parts: seq<string>)
    ensures forall i :: 0 <= i < |parts| ==> IsWord(parts[i])
    decreases |s|
  {
    if s == [] then []
    else if IsSpace(s[0]) then Split(s[1..])
    else
      var n := WordLength(s);
      [s[..n]] + Split(s[n..])
  }

  /** A string made only of whitespace (possibly empty). */
  predicate AllSpace(ws: string) {
    forall i :: 0 <= i < |ws| ==> IsSpace(ws[i])
  }

  /** A separator between two parts: a non-empty run of whitespace. */
  predicate IsSeparator(ws: string) {
    ws != [] && AllSpace(ws)
  }

  /** The words `parts` with `seps[i]` between `parts[i]` and `parts[i + 1]`; the
      reference against which `Split` is checked. */
  function Join(parts: seq<string>, seps: seq<string>): string
    requires |parts| == 0 || |seps| == |parts| - 1
  {
    if parts == [] then ""
    else if |parts| == 1 then parts[0]
    else parts[0] + seps[0] + Join(parts[1..], seps[1..])
  }

  lemma {:induction false} WordLengthOfWord(w: string, rest: string)
    requires NoSpace(w)
    requires rest == [] || IsSpace(rest[0])
    ensures WordLength(w + rest) == |w|
  {
    if w != [] {
      assert (w + rest)[1..] == w[1..] + rest;
      WordLengthOfWord(w[1..], rest);
    } else {
      assert w + rest == rest;
    }
  }

  /** Leading whitespace never changes what `split()` returns. */
  lemma {:induction false} SplitSkipsLeadingSpace(ws: string, s: string)
    requires AllSpace(ws)
    ensures Split(ws + s) == Split(s)
  {
    if ws != [] {
      assert (ws + s)[1..] == ws[1..] + s;
      SplitSkipsLeadingSpace(ws[1..], s);
    } else {
      assert ws + s == s;
    }
  }

  /** A string of whitespace only, trailing whitespace included, splits into no parts. */
  lemma SplitOfSpace(ws: string)
    requires AllSpace(ws)
    ensures Split(ws) == []
  {
    SplitSkipsLeadingSpace(ws, []);
    assert ws + [] == ws;
  }

  /** A word ended by whitespace or by the end of the string is the first part. */
  lemma SplitWord(w: string, rest: string)
    requires IsWord(w)
    requires rest == [] || IsSpace(rest[0])
    ensures Split(w + rest) == [w] + Split(rest)
  {
    var s := w + rest;
    WordLengthOfWord(w, rest);
    assert s[..|w|] == w;
    assert s[|w|..] == rest;
  }

  /** A whole run of whitespace after a word is one separator: it yields no empty part. */
  lemma SplitSeparatorRun(w: string, ws: string, rest: string)
    requires IsWord(w) && IsSeparator(ws)
    ensures Split(w + ws + rest) == [w] + Split(rest)
  {
    assert w + ws + rest == w + (ws + rest);
    SplitWord(w, ws + rest);
    SplitSkipsLeadingSpace(ws, rest);
  }

  /** Splitting words joined by any whitespace runs, with any whitespace before and
      after, gives the words back. */
  lemma {:induction false} SplitJoin(lead: string, parts: seq<string>, seps: seq<string>, trail: string)
    requires forall i :: 0 <= i < |parts| ==> IsWord(parts[i])
    requires |parts| == 0 || |seps| == |parts| - 1
    requires forall i :: 0 <= i < |seps| ==> IsSeparator(seps[i])
    requires AllSpace(lead) && AllSpace(trail)
    ensures Split(lead + Join(parts, seps) + trail) == parts
    decreases |parts|
  {
    var body := Join(parts, seps) + trail;
    assert lead + Join(parts, seps) + trail == lead + body;
    SplitSkipsLeadingSpace(lead, body);
    if parts == [] {
      assert body == trail;
      SplitOfSpace(trail);
    } else if |parts| == 1 {
      SplitWord(parts[0], trail);
      SplitOfSpace(trail);
    } else {
      var rest := Join(parts[1..], seps[1..]) + trail;
      assert body == parts[0] + seps[0] + rest;
      SplitSeparatorRun(parts[0], seps[0], rest);
      SplitJoin([], parts[1..], seps[1..], trail);
      assert [] + Join(parts[1..], seps[1..]) + trail == rest;
      assert parts == [parts[0]] + parts[1..];
    }
  }

  /** ASCII lower-casing of one character. */
  function LowerChar(c: char): char {
    if 'A' <= c <= 'Z' then (c as int - 'A' as int + 'a' as int) as char else c
  }

  /** Lower-casing of a string, restricted to ASCII letters. Compared with an all-ASCII
      literal such as "bearer" or "authorization" it agrees with Python's `str.lower()`:
      the only other code points whose lower case is an ASCII letter are U+212A (KELVIN
      SIGN, to 'k', not used in either literal) and U+0130, whose lower case is two
      characters, one of them not ASCII. */
  function Lower(s: string): (r: string)
    ensures |r| == |s|
    ensures forall i :: 0 <= i < |s| ==> r[i] == LowerChar(s[i])
  {
    if s == [] then [] else [LowerChar(s[0])] + Lower(s[1..])
  }

  /** The characters lower-casing to a given ASCII lower-case letter are that letter
      and its upper-case form. */
  lemma LowerCharIsLetter(c: char, x: char)
    requires 'a' <= x <= 'z'
    ensures LowerChar(c) == x <==> c == x || c == (x as int - 'a' as int + 'A' as int) as char
  {
  }

  /** Some case variant of "bearer": each letter in lower or upper case. */
  predicate IsBearerInAnyCase(s: string) {
    && |s| == 6
    && (s[0] == 'b' || s[0] == 'B') && (s[1] == 'e' || s[1] == 'E')
    && (s[2] == 'a' || s[2] == 'A') && (s[3] == 'r' || s[3] == 'R')
    && (s[4] == 'e' || s[4] == 'E') && (s[5] == 'r' || s[5] == 'R')
  }

  /** A string lower-cases to "bearer" exactly when it is "bearer" in some mix of cases. */
  lemma LowerIsBearer(s: string)
    ensures Lower(s) == "bearer" <==> IsBearerInAnyCase(s)
  {
    if |s| == 6 {
      var r := Lower(s);
      LowerCharIsLetter(s[0], 'b');
      LowerCharIsLetter(s[1], 'e');
      LowerCharIsLetter(s[2], 'a');
      LowerCharIsLetter(s[3], 'r');
      LowerCharIsLetter(s[4], 'e');
      LowerCharIsLetter(s[5], 'r');
      assert r == "bearer" <==>
        r[0] == 'b' && r[1] == 'e' && r[2] == 'a' && r[3] == 'r' && r[4] == 'e' && r[5] == 'r';
    }
  }
}
