/** Character classes and string operations that the validators and the search filters are built
    from: JavaScript's `\s` class, decimal digits, removal of separator characters, the
    case-insensitive substring search that a regular-expression filter with the `i` flag performs
    on a literal pattern, and the binary order in which the database sorts strings. */
module Text {

  /** The characters JavaScript's `\s` class matches. */
  predicate IsWhitespace(c: char)
  {
    || c == ' ' || c == '\t' || c == '\n' || c == '\U{000B}' || c == '\U{000C}' || c == '\r'
    || c == '\U{00A0}' || c == '\U{1680}' || ('\U{2000}' <= c <= '\U{200A}')
    || c == '\U{2028}' || c == '\U{2029}' || c == '\U{202F}' || c == '\U{205F}'
    || c == '\U{3000}' || c == '\U{FEFF}'
  }

  /** The characters JavaScript's `.` does not match. */
  predicate IsLineTerminator(c: char)
  {
    c == '\n' || c == '\r' || c == '\U{2028}' || c == '\U{2029}'
  }

  predicate IsDigit(c: char)
  {
    '0' <= c <= '9'
  }

  predicate AllDigits(s: string)
  {
    forall i :: 0 <= i < |s| ==> IsDigit(s[i])
  }

  /** `s` with every character that `drop` selects removed, as `s.replace(/[...]/g, '')` does. */
  function Strip(s: string, drop: char -> bool): string
  {
    if s == [] then [] else (if drop(s[0]) then [] else [s[0]]) + Strip(s[1..], drop)
  }

  /** What stripping keeps: exactly the characters of `s` that `drop` does not select. */
  lemma {:induction false} StripKeeps(s: string, drop: char -> bool)
    ensures |Strip(s, drop)| <= |s|
    ensures forall c :: c in Strip(s, drop) <==> c in s && !drop(c)
  {
    if s != [] {
      StripKeeps(s[1..], drop);
      assert s == [s[0]] + s[1..];
    }
  }

  /** Stripping distributes over concatenation. */
  lemma {:induction false} StripAppend(a: string, b: string, drop: char -> bool)
    ensures Strip(a + b, drop) == Strip(a, drop) + Strip(b, drop)
  {
    if a == [] {
      assert a + b == b;
    } else {
      assert (a + b)[0] == a[0];
      assert (a + b)[1..] == a[1..] + b;
      StripAppend(a[1..], b, drop);
      var head := if drop(a[0]) then [] else [a[0]];
      calc {
        Strip(a + b, drop);
        head + Strip(a[1..] + b, drop);
        head + (Strip(a[1..], drop) + Strip(b, drop));
        (head + Strip(a[1..], drop)) + Strip(b, drop);
      }
    }
  }

  /** A dropped character can be inserted anywhere without changing what is left. */
  lemma StripIgnoresDropped(a: string, c: char, b: string, drop: char -> bool)
    requires drop(c)
    ensures Strip(a + [c] + b, drop) == Strip(a + b, drop)
  {
    StripAppend(a + [c], b, drop);
    StripAppend(a, [c], drop);
    StripAppend(a, b, drop);
  }

  /** ASCII case folding, the folding the `i` flag applies to letters A-Z. */
  function Lower(c: char): char
  {
    if 'A' <= c <= 'Z' then (c as int + 32) as char else c
  }

  /** `pat` occurs in `text` at offset `i`, letters compared without regard to case. */
  predicate MatchesAt(text: string, pat: string, i: int)
  {
    0 <= i && i + |pat| <= |text| && forall k :: 0 <= k < |pat| ==> Lower(text[i + k]) == Lower(pat[k])
  }

  /** Case-insensitive substring search: true iff `pat` occurs somewhere in `text`. */
  function ContainsIgnoreCase(text: string, pat: string): (r: bool)
    ensures r <==> exists i :: MatchesAt(text, pat, i)
    decreases |text|
  {
    if |pat| > |text| then
      false
    else if MatchesAt(text, pat, 0) then
      true
    else
      var r := ContainsIgnoreCase(text[1..], pat);
      assert forall i :: MatchesAt(text[1..], pat, i) ==> MatchesAt(text, pat, i + 1);
      assert forall i :: MatchesAt(text, pat, i) ==> i >= 1 && MatchesAt(text[1..], pat, i - 1);
      r
  }

  /** Binary (code point) order on strings, the database's default string order. */
  predicate StrLe(a: string, b: string)
    decreases |a|
  {
    |a| == 0 || (|b| > 0 && (a[0] < b[0] || (a[0] == b[0] && StrLe(a[1..], b[1..]))))
  }

  lemma {:induction false} StrLeReflexive(a: string)
    ensures StrLe(a, a)
    decreases |a|
  {
    if |a| > 0 {
      StrLeReflexive(a[1..]);
    }
  }

  lemma {:induction false} StrLeTotal(a: string, b: string)
    ensures StrLe(a, b) || StrLe(b, a)
    decreases |a|
  {
    if |a| > 0 && |b| > 0 && a[0] == b[0] {
      StrLeTotal(a[1..], b[1..]);
    }
  }

  lemma {:induction false} StrLeAntisymmetric(a: string, b: string)
    requires StrLe(a, b) && StrLe(b, a)
    ensures a == b
    decreases |a|
  {
    if |a| > 0 {
      StrLeAntisymmetric(a[1..], b[1..]);
      assert a == [a[0]] + a[1..] && b == [b[0]] + b[1..];
    }
  }

  lemma {:induction false} StrLeTransitive(a: string, b: string, c: string)
    requires StrLe(a, b) && StrLe(b, c)
    ensures StrLe(a, c)
    decreases |a|
  {
    if |a| > 0 && a[0] == b[0] && b[0] == c[0] {
      StrLeTransitive(a[1..], b[1..], c[1..]);
    }
  }
}
