/**
 * The string operations the bot relies on, restricted to ASCII:
 * Python's `str.strip()`, `str.upper()`, `str.lower()`, `str.startswith`,
 * `str.split(None, n)`, `str.split(sep, 1)`, `"\n".join(...)`, `str(n)` and
 * `int(s)` for non-negative decimals, and the mention removal
 * `re.sub(r"<@[^>]+>", "", s)`.
 */
module Text {
  import opened Wrappers

  // ---------- Characters ----------

  /** ASCII characters for which Python's `str.isspace()` holds:
      tab, line feed, vertical tab, form feed, carriage return,
      the separators 0x1C-0x1F and the space. */
  predicate IsSpace(c: char) {
    (9 <= c as int <= 13) || (28 <= c as int <= 32)
  }

  predicate AllSpace(s: string) {
    forall i :: 0 <= i < |s| ==> IsSpace(s[i])
  }

  predicate NoSpace(s: string) {
    forall i :: 0 <= i < |s| ==> !IsSpace(s[i])
  }

  function UpperChar(c: char): char {
    if 'a' <= c <= 'z' then (c as int - 32) as char else c
  }

  function LowerChar(c: char): char {
    if 'A' <= c <= 'Z' then (c as int + 32) as char else c
  }

  /** Applies `f` to every character of `s`. */
  function MapChars(f: char -> char, s: string): (r: string)
    ensures |r| == |s|
    ensures forall i :: 0 <= i < |s| ==> r[i] == f(s[i])
  {
    seq(|s|, i requires 0 <= i < |s| => f(s[i]))
  }

  function Upper(s: string): string {
    MapChars(UpperChar, s)
  }

  function Lower(s: string): string {
    MapChars(LowerChar, s)
  }

  /** No ASCII lowercase letter occurs in `s`. */
  predicate IsUpperCase(s: string) {
    forall i :: 0 <= i < |s| ==> !('a' <= s[i] <= 'z')
  }

  lemma UpperIsUpperCase(s: string)
    ensures IsUpperCase(Upper(s))
  {
  }

  lemma UpperCaseIsFixed(s: string)
    requires IsUpperCase(s)
    ensures Upper(s) == s
  {
  }

  /** `upper()` neither adds nor removes whitespace at the ends. */
  lemma {:induction false} UpperKeepsStripped(s: string)
    requires IsStripped(s)
    ensures IsStripped(Upper(s))
  {
    if s != [] {
      var u := Upper(s);
      assert u[0] == UpperChar(s[0]);
      assert u[|u| - 1] == UpperChar(s[|s| - 1]);
    }
  }

  lemma UpperOfLower(s: string)
    ensures Upper(Lower(s)) == Upper(s)
  {
  }

  lemma UpperIdempotent(s: string)
    ensures Upper(Upper(s)) == Upper(s)
  {
  }

  // ---------- strip() ----------

  /** `s` with its leading whitespace removed (Python `lstrip()`). */
  function TrimStart(s: string): (r: string)
    ensures |r| <= |s| && r == s[|s| - |r|..]
    ensures AllSpace(s[..|s| - |r|])
    ensures r == [] || !IsSpace(r[0])
  {
    if s != [] && IsSpace(s[0]) then TrimStart(s[1..]) else s
  }

  /** `s` with its trailing whitespace removed (Python `rstrip()`). */
  function TrimEnd(s: string): (r: string)
    ensures |r| <= |s| && r == s[..|r|]
    ensures AllSpace(s[|r|..])
    ensures r == [] || !IsSpace(r[|r| - 1])
  {
    if s != [] && IsSpace(s[|s| - 1]) then TrimEnd(s[..|s| - 1]) else s
  }

  /** Python `str.strip()` with no argument. */
  function Strip(s: string): string {
    TrimEnd(TrimStart(s))
  }

  /** What `strip()` leaves: nothing, or a string that neither starts nor ends
      with whitespace. */
  predicate IsStripped(s: string) {
    s == [] || (!IsSpace(s[0]) && !IsSpace(s[|s| - 1]))
  }

  /** The result of `strip()` has no whitespace at either end. */
  lemma StripIsStripped(s: string)
    ensures IsStripped(Strip(s))
  {
    var t := TrimStart(s);
    var r := TrimEnd(t);
    if r != [] {
      assert r[0] == t[0];
    }
  }

  lemma StrippedIsFixed(s: string)
    requires IsStripped(s)
    ensures Strip(s) == s
  {
    assert TrimStart(s) == s;
    assert TrimEnd(s) == s;
  }

  lemma StripIdempotent(s: string)
    ensures Strip(Strip(s)) == Strip(s)
  {
    StripIsStripped(s);
    StrippedIsFixed(Strip(s));
  }

  lemma {:induction false} TrimStartAfterSpace(a: string, s: string)
    requires AllSpace(a)
    ensures TrimStart(a + s) == TrimStart(s)
    decreases |a|
  {
    if a != [] {
      assert (a + s)[0] == a[0];
      assert (a + s)[1..] == a[1..] + s;
      TrimStartAfterSpace(a[1..], s);
    } else {
      assert a + s == s;
    }
  }

  lemma {:induction false} TrimEndBeforeSpace(s: string, b: string)
    requires AllSpace(b)
    ensures TrimEnd(s + b) == TrimEnd(s)
    decreases |b|
  {
    if b != [] {
      var b' := b[..|b| - 1];
      assert (s + b)[..|s + b| - 1] == s + b';
      TrimEndBeforeSpace(s, b');
    } else {
      assert s + b == s;
    }
  }

  lemma {:induction false} TrimStartAppend(s: string, b: string)
    requires TrimStart(s) != []
    ensures TrimStart(s + b) == TrimStart(s) + b
    decreases |s|
  {
    if IsSpace(s[0]) {
      assert (s + b)[1..] == s[1..] + b;
      TrimStartAppend(s[1..], b);
    }
  }

  /** Surrounding whitespace does not change what `strip()` returns. */
  lemma StripPadded(a: string, s: string, b: string)
    requires AllSpace(a) && AllSpace(b)
    ensures Strip(a + s + b) == Strip(s)
  {
    assert a + s + b == a + (s + b);
    TrimStartAfterSpace(a, s + b);
    if TrimStart(s) != [] {
      TrimStartAppend(s, b);
      TrimEndBeforeSpace(TrimStart(s), b);
    } else {
      assert s == s[..|s|];
      assert AllSpace(s + b);
      assert s + b == (s + b) + [];
      TrimStartAfterSpace(s + b, []);
    }
  }

  /** A character map that sends whitespace to whitespace and nothing else
      to whitespace commutes with `strip()`. */
  lemma {:induction false} TrimStartMap(f: char -> char, s: string)
    requires forall c :: IsSpace(f(c)) == IsSpace(c)
    ensures TrimStart(MapChars(f, s)) == MapChars(f, TrimStart(s))
    decreases |s|
  {
    if s != [] && IsSpace(s[0]) {
      assert MapChars(f, s)[1..] == MapChars(f, s[1..]);
      TrimStartMap(f, s[1..]);
    }
  }

  lemma {:induction false} TrimEndMap(f: char -> char, s: string)
    requires forall c :: IsSpace(f(c)) == IsSpace(c)
    ensures TrimEnd(MapChars(f, s)) == MapChars(f, TrimEnd(s))
    decreases |s|
  {
    if s != [] && IsSpace(s[|s| - 1]) {
      assert MapChars(f, s)[..|s| - 1] == MapChars(f, s[..|s| - 1]);
      TrimEndMap(f, s[..|s| - 1]);
    }
  }

  lemma StripMap(f: char -> char, s: string)
    requires forall c :: IsSpace(f(c)) == IsSpace(c)
    ensures Strip(MapChars(f, s)) == MapChars(f, Strip(s))
  {
    TrimStartMap(f, s);
    TrimEndMap(f, TrimStart(s));
  }

  lemma StripUpper(s: string)
    ensures Strip(Upper(s)) == Upper(Strip(s))
  {
    StripMap(UpperChar, s);
  }

  lemma StripLower(s: string)
    ensures Strip(Lower(s)) == Lower(Strip(s))
  {
    StripMap(LowerChar, s);
  }

  // ---------- startswith / split(None, n) ----------

  predicate StartsWith(s: string, prefix: string) {
    |prefix| <= |s| && s[..|prefix|] == prefix
  }

  /** Length of the run of non-whitespace characters that `s` starts with. */
  function WordLength(s: string): (n: nat)
    ensures n <= |s| && NoSpace(s[..n])
    ensures n == |s| || IsSpace(s[n])
  {
    if s == [] || IsSpace(s[0]) then 0 else 1 + WordLength(s[1..])
  }

  /** Python `s.split(None, maxsplit)`: words separated by runs of
      whitespace, at most `maxsplit` splits, the rest of the string (after
      its leading whitespace) kept whole as the last part. */
  function SplitWhitespace(s: string, maxsplit: nat): (parts: seq<string>)
    ensures |parts| <= maxsplit + 1
    ensures forall k :: 0 <= k < |parts| ==> parts[k] != []
    decreases |s|, 1
  {
    SplitWords(TrimStart(s), maxsplit)
  }

  /** `SplitWhitespace` once the leading whitespace is gone. */
  function SplitWords(t: string, maxsplit: nat): (parts: seq<string>)
    requires t == [] || !IsSpace(t[0])
    ensures |parts| <= maxsplit + 1
    ensures forall k :: 0 <= k < |parts| ==> parts[k] != []
    decreases |t|, 0
  {
    if t == [] then []
    else if maxsplit == 0 then [t]
    else
      var n := WordLength(t);
      [t[..n]] + SplitWhitespace(t[n..], maxsplit - 1)
  }

  lemma {:induction false} WordLengthOfWord(w: string, rest: string)
    requires NoSpace(w)
    requires rest == [] || IsSpace(rest[0])
    ensures WordLength(w + rest) == |w|
    decreases |w|
  {
    if w != [] {
      assert (w + rest)[1..] == w[1..] + rest;
      WordLengthOfWord(w[1..], rest);
    } else {
      assert w + rest == rest;
    }
  }

  /** Leading whitespace does not change how a string splits. */
  lemma {:induction false} SplitAfterSpace(gap: string, s: string, maxsplit: nat)
    requires AllSpace(gap)
    ensures SplitWhitespace(gap + s, maxsplit) == SplitWhitespace(s, maxsplit)
  {
    TrimStartAfterSpace(gap, s);
  }

  /** A leading word followed by whitespace (or nothing) is split off first. */
  lemma {:induction false} SplitLeadingWord(w: string, rest: string, maxsplit: nat)
    requires w != [] && NoSpace(w)
    requires rest == [] || IsSpace(rest[0])
    requires maxsplit > 0
    ensures SplitWhitespace(w + rest, maxsplit) == [w] + SplitWhitespace(rest, maxsplit - 1)
  {
    var s := w + rest;
    assert s[0] == w[0];
    assert TrimStart(s) == s;
    WordLengthOfWord(w, rest);
    assert s[..|w|] == w;
    assert s[|w|..] == rest;
  }

  /** Two words separated by whitespace split into exactly those words. */
  lemma {:induction false} SplitTwoWords(w1: string, gap: string, w2: string)
    requires w1 != [] && NoSpace(w1)
    requires gap != [] && AllSpace(gap)
    requires w2 != [] && NoSpace(w2)
    ensures SplitWhitespace(w1 + gap + w2, 2) == [w1, w2]
  {
    hide SplitWhitespace, SplitWords, TrimStart, WordLength;
    assert w1 + gap + w2 == w1 + (gap + w2);
    SplitLeadingWord(w1, gap + w2, 2);
    SplitAfterSpace(gap, w2, 1);
    SplitOneWord(w2, 1);
  }

  /** With at most two splits, the first two parts of "word gap term tail"
      are the word and the term, whatever the tail holds after its leading
      whitespace. */
  lemma {:induction false} SplitSecondWord(w: string, gap: string, term: string, tail: string)
    requires w != [] && NoSpace(w)
    requires gap != [] && AllSpace(gap)
    requires term != [] && NoSpace(term)
    requires tail == [] || IsSpace(tail[0])
    ensures var parts := SplitWhitespace(w + gap + term + tail, 2);
            |parts| >= 2 && parts[0] == w && parts[1] == term
  {
    hide SplitWhitespace, SplitWords, TrimStart, WordLength;
    assert w + gap + term + tail == w + (gap + (term + tail));
    SplitLeadingWord(w, gap + (term + tail), 2);
    SplitAfterSpace(gap, term + tail, 1);
    SplitLeadingWord(term, tail, 1);
  }

  /** A single word splits into itself. */
  lemma {:induction false} SplitOneWord(w: string, maxsplit: nat)
    requires w != [] && NoSpace(w)
    requires maxsplit > 0
    ensures SplitWhitespace(w, maxsplit) == [w]
  {
    assert w + [] == w;
    SplitLeadingWord(w, [], maxsplit);
  }

  // ---------- split(sep, 1), split(sep), join ----------

  /** Index of the first occurrence of `c` in `s`. */
  function IndexOf(s: string, c: char): (r: Option<nat>)
    ensures r.None? <==> c !in s
    ensures r.Some? ==> r.value < |s| && s[r.value] == c && c !in s[..r.value]
  {
    if s == [] then None
    else if s[0] == c then Some(0)
    else match IndexOf(s[1..], c)
      case None => None
      case Some(i) =>
        assert s[..i + 1] == [s[0]] + s[1..][..i];
        Some(i + 1)
  }

  lemma IndexOfFirst(a: string, c: char, b: string)
    requires c !in a
    ensures IndexOf(a + [c] + b, c) == Some(|a|)
  {
    var s := a + [c] + b;
    assert s[|a|] == c;
    assert s[..|a|] == a;
  }

  /** Python `s.split(c, 1)`: the whole string when `c` does not occur,
      otherwise the text before the first `c` and the text after it. */
  function SplitOnce(s: string, c: char): (parts: seq<string>)
    ensures |parts| == 1 <==> c !in s
    ensures |parts| == 1 ==> parts[0] == s
    ensures |parts| == 2 ==> parts[0] + [c] + parts[1] == s && c !in parts[0]
    ensures 1 <= |parts| <= 2
  {
    match IndexOf(s, c)
    case None => [s]
    case Some(i) =>
      assert s == s[..i] + [c] + s[i + 1..];
      [s[..i], s[i + 1..]]
  }

  /** Python `s.split(c)`: every piece between occurrences of `c`. */
  function SplitOn(s: string, c: char): (parts: seq<string>)
    ensures |parts| >= 1
    decreases |s|
  {
    match IndexOf(s, c)
    case None => [s]
    case Some(i) => [s[..i]] + SplitOn(s[i + 1..], c)
  }

  /** Python `sep.join(parts)`. */
  function Join(sep: string, parts: seq<string>): string
    decreases |parts|
  {
    if |parts| == 0 then []
    else if |parts| == 1 then parts[0]
    else parts[0] + sep + Join(sep, parts[1..])
  }

  /** Splitting a join on its one-character separator gives the parts back,
      provided no part contains the separator. */
  lemma {:induction false} SplitJoin(parts: seq<string>, c: char)
    requires |parts| >= 1
    requires forall k :: 0 <= k < |parts| ==> c !in parts[k]
    ensures SplitOn(Join([c], parts), c) == parts
    decreases |parts|
  {
    var first := parts[0];
    if |parts| == 1 {
      assert Join([c], parts) == first;
      assert IndexOf(first, c).None?;
      assert parts == [first];
    } else {
      var rest := Join([c], parts[1..]);
      assert Join([c], parts) == first + [c] + rest;
      IndexOfFirst(first, c, rest);
      SplitOnAt(first, c, rest);
      SplitJoin(parts[1..], c);
      assert parts == [first] + parts[1..];
    }
  }

  lemma SplitOnAt(a: string, c: char, b: string)
    requires c !in a
    ensures SplitOn(a + [c] + b, c) == [a] + SplitOn(b, c)
  {
    var s := a + [c] + b;
    IndexOfFirst(a, c, b);
    assert s[..|a|] == a;
    assert s[|a| + 1..] == b;
  }

  // ---------- str(n) and int(s) ----------

  predicate IsDigit(c: char) {
    '0' <= c <= '9'
  }

  predicate AllDigits(s: string) {
    forall i :: 0 <= i < |s| ==> IsDigit(s[i])
  }

  function DigitChar(d: nat): (c: char)
    requires d < 10
    ensures IsDigit(c)
  {
    ('0' as int + d) as char
  }

  /** Python `str(n)` for a non-negative integer. */
  function NatToString(n: nat): (s: string)
    ensures s != [] && AllDigits(s)
    ensures s[0] == '0' <==> n == 0
    decreases n
  {
    if n < 10 then [DigitChar(n)] else NatToString(n / 10) + [DigitChar(n % 10)]
  }

  function DecimalValue(s: string): nat
    requires AllDigits(s)
  {
    if s == [] then 0 else 10 * DecimalValue(s[..|s| - 1]) + (s[|s| - 1] as int - '0' as int)
  }

  /** Python `int(s)` restricted to plain decimal digits; `None` is the
      `ValueError` raised for anything else. */
  function ParseDecimal(s: string): (r: Option<nat>)
    ensures r.Some? <==> s != [] && AllDigits(s)
  {
    if s != [] && AllDigits(s) then Some(DecimalValue(s)) else None
  }

  lemma {:induction false} DecimalRoundTrip(n: nat)
    ensures ParseDecimal(NatToString(n)) == Some(n)
    decreases n
  {
    var s := NatToString(n);
    if n >= 10 {
      DecimalRoundTrip(n / 10);
      assert s[..|s| - 1] == NatToString(n / 10);
      assert s[|s| - 1] as int - '0' as int == n % 10;
      assert DecimalValue(s) == 10 * (n / 10) + n % 10;
    } else {
      assert s[..|s| - 1] == [];
    }
  }

  // ---------- re.sub(r"<@[^>]+>", "", s) ----------

  /** A user mention as the pattern `<@[^>]+>` matches it. */
  predicate IsMention(m: string) {
    |m| >= 4 && m[0] == '<' && m[1] == '@' && m[|m| - 1] == '>' && '>' !in m[2..|m| - 1]
  }

  /** Length of the mention that `s` starts with, or 0 when the pattern does
      not match at the start of `s`. */
  function MentionLength(s: string): (n: nat)
    ensures n <= |s|
    ensures n > 0 ==> IsMention(s[..n])
  {
    if |s| >= 2 && s[0] == '<' && s[1] == '@' then
      match IndexOf(s[2..], '>')
      case None => 0
      case Some(k) =>
        if k == 0 then 0
        else
          assert s[..k + 3][2..k + 2] == s[2..][..k];
          k + 3
    else 0
  }

  /** The pattern matches at the start of `s` exactly when `s` starts with a
      mention, and the match is that mention. */
  lemma MentionLengthExact(m: string, rest: string)
    requires IsMention(m)
    ensures MentionLength(m + rest) == |m|
  {
    var s := m + rest;
    var inner := m[2..|m| - 1];
    assert s[2..] == inner + ['>'] + rest;
    IndexOfFirst(inner, '>', rest);
  }

  lemma NoMentionAtStart(s: string)
    requires MentionLength(s) == 0
    ensures forall n :: 0 < n <= |s| ==> !IsMention(s[..n])
  {
    forall n | 0 < n <= |s| && IsMention(s[..n])
      ensures false
    {
      assert s[..n] + s[n..] == s;
      MentionLengthExact(s[..n], s[n..]);
    }
  }

  /** `re.sub(r"<@[^>]+>", "", s)`: scans left to right and drops every
      match, resuming after it. */
  function RemoveMentions(s: string): string
    decreases |s|
  {
    if s == [] then []
    else
      var n := MentionLength(s);
      if n > 0 then RemoveMentions(s[n..]) else [s[0]] + RemoveMentions(s[1..])
  }

  lemma RemoveMentionsPrefix(m: string, s: string)
    requires IsMention(m)
    ensures RemoveMentions(m + s) == RemoveMentions(s)
  {
    MentionLengthExact(m, s);
    assert (m + s)[|m|..] == s;
  }

  lemma {:induction false} RemoveMentionsKeeps(x: string, s: string)
    requires '<' !in x
    ensures RemoveMentions(x + s) == x + RemoveMentions(s)
    decreases |x|
  {
    if x != [] {
      var t := x + s;
      assert t[0] == x[0];
      assert t[1..] == x[1..] + s;
      RemoveMentionsKeeps(x[1..], s);
      assert x == [x[0]] + x[1..];
    } else {
      assert x + s == s;
    }
  }
}
