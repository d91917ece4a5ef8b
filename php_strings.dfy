/**
 * The PHP string built-ins the directory uses, on strings as sequences of
 * characters: strtolower, trim, strpos, str_replace, explode and implode.
 */
module PhpStrings {

  /** PHP's truthiness for a string: "" and "0" are the only falsy strings. */
  predicate IsTruthy(s: string) {
    s != "" && s != "0"
  }

  predicate IsAsciiUpper(c: char) {
    'A' <= c <= 'Z'
  }

  /** strtolower on one character: only the ASCII letters A-Z change. */
  function LowerChar(c: char): (d: char)
    ensures !IsAsciiUpper(d)
    ensures IsAsciiUpper(c) ==> d as int == c as int + 32
    ensures !IsAsciiUpper(c) ==> d == c
  {
    if IsAsciiUpper(c) then (c as int + 32) as char else c
  }

  /** strtolower. */
  function Lower(s: string): (r: string)
    ensures |r| == |s|
    ensures forall i :: 0 <= i < |s| ==> r[i] == LowerChar(s[i])
  {
    if s == [] then [] else [LowerChar(s[0])] + Lower(s[1..])
  }

  lemma {:induction false} LowerConcat(a: string, b: string)
    ensures Lower(a + b) == Lower(a) + Lower(b)
    decreases |a|
  {
    if a == [] {
      assert a + b == b;
    } else {
      assert (a + b)[1..] == a[1..] + b;
      LowerConcat(a[1..], b);
    }
  }

  /** A string without upper-case letters is its own lower-case form; in particular Lower is idempotent. */
  lemma LowerFixed(s: string)
    requires forall i :: 0 <= i < |s| ==> !IsAsciiUpper(s[i])
    ensures Lower(s) == s
  {
  }

  /** The characters PHP's trim() strips by default: " \t\n\r\0\x0B". */
  predicate IsTrimChar(c: char) {
    c == ' ' || c == '\t' || c == '\n' || c == '\r' || c == '\0' || c == '\U{000B}'
  }

  predicate AllTrimChars(s: string) {
    forall i :: 0 <= i < |s| ==> IsTrimChar(s[i])
  }

  function TrimStart(s: string): (r: string)
    ensures |r| <= |s| && r == s[|s| - |r|..]
    ensures r != [] ==> !IsTrimChar(r[0])
    ensures AllTrimChars(s[..|s| - |r|])
  {
    if s != [] && IsTrimChar(s[0]) then TrimStart(s[1..]) else s
  }

  function TrimEnd(s: string): (r: string)
    ensures |r| <= |s| && r == s[..|r|]
    ensures r != [] ==> !IsTrimChar(r[|r| - 1])
    ensures AllTrimChars(s[|r|..])
  {
    if s != [] && IsTrimChar(s[|s| - 1]) then TrimEnd(s[..|s| - 1]) else s
  }

  /** trim($s) with the default character list. */
  function Trim(s: string): string {
    TrimEnd(TrimStart(s))
  }

  lemma {:induction false} TrimStartLeading(w: string, s: string)
    requires AllTrimChars(w)
    ensures TrimStart(w + s) == TrimStart(s)
    decreases |w|
  {
    if w != [] {
      assert (w + s)[1..] == w[1..] + s;
      TrimStartLeading(w[1..], s);
    } else {
      assert w + s == s;
    }
  }

  lemma {:induction false} TrimEndTrailing(s: string, w: string)
    requires AllTrimChars(w)
    ensures TrimEnd(s + w) == TrimEnd(s)
    decreases |w|
  {
    if w != [] {
      assert (s + w)[..|s + w| - 1] == s + w[..|w| - 1];
      TrimEndTrailing(s, w[..|w| - 1]);
    } else {
      assert s + w == s;
    }
  }

  /** Trimming the start of a concatenation: the second part is untouched once a kept character is seen. */
  lemma {:induction false} TrimStartConcat(s: string, w: string)
    ensures TrimStart(s + w) == if TrimStart(s) != [] then TrimStart(s) + w else TrimStart(w)
    decreases |s|
  {
    if s == [] {
      assert s + w == w;
    } else if IsTrimChar(s[0]) {
      assert (s + w)[1..] == s[1..] + w;
      TrimStartConcat(s[1..], w);
    }
  }

  /** Surrounding whitespace does not change the trimmed string. */
  lemma TrimIgnoresSurrounding(w1: string, s: string, w2: string)
    requires AllTrimChars(w1) && AllTrimChars(w2)
    ensures Trim(w1 + s + w2) == Trim(s)
  {
    assert w1 + s + w2 == w1 + (s + w2);
    TrimStartLeading(w1, s + w2);
    TrimStartConcat(s, w2);
    if TrimStart(s) != [] {
      TrimEndTrailing(TrimStart(s), w2);
    } else {
      TrimStartLeading(w2, []);
      assert w2 + [] == w2;
    }
  }

  /** Trimming a trimmed string changes nothing. */
  lemma TrimIdempotent(s: string)
    ensures Trim(Trim(s)) == Trim(s)
  {
    var t := TrimStart(s);
    var u := TrimEnd(t);
    if u != [] {
      assert u[0] == t[0];
    }
    assert TrimStart(u) == u;
    assert TrimEnd(u) == u;
  }

  /** Lower-casing maps trimmed characters to trimmed characters and kept ones to kept ones. */
  lemma LowerCharTrim(c: char)
    ensures IsTrimChar(LowerChar(c)) == IsTrimChar(c)
  {
  }

  lemma {:induction false} TrimStartLower(s: string)
    ensures TrimStart(Lower(s)) == Lower(TrimStart(s))
    decreases |s|
  {
    if s != [] {
      LowerCharTrim(s[0]);
      assert Lower(s)[1..] == Lower(s[1..]);
      TrimStartLower(s[1..]);
    }
  }

  lemma {:induction false} TrimEndLower(s: string)
    ensures TrimEnd(Lower(s)) == Lower(TrimEnd(s))
    decreases |s|
  {
    if s != [] {
      LowerCharTrim(s[|s| - 1]);
      assert Lower(s)[..|s| - 1] == Lower(s[..|s| - 1]);
      TrimEndLower(s[..|s| - 1]);
    }
  }

  /** trim and strtolower commute. */
  lemma TrimLower(s: string)
    ensures Trim(Lower(s)) == Lower(Trim(s))
  {
    TrimStartLower(s);
    TrimEndLower(TrimStart(s));
  }

  /** `needle` occurs in `s` starting at index i. */
  predicate OccursAt(s: string, needle: string, i: int) {
    0 <= i && i + |needle| <= |s| && s[i..i + |needle|] == needle
  }

  /** strpos($haystack, $needle) !== false, scanning from the left. */
  function Contains(haystack: string, needle: string): bool {
    if needle <= haystack then true
    else if haystack == [] then false
    else Contains(haystack[1..], needle)
  }

  lemma OccursAtShift(s: string, needle: string, i: int)
    requires s != [] && 0 <= i
    ensures OccursAt(s[1..], needle, i) <==> OccursAt(s, needle, i + 1)
  {
    if i + |needle| <= |s| - 1 {
      assert s[1..][i..i + |needle|] == s[i + 1..i + 1 + |needle|];
    }
  }

  /** The scan finds the needle exactly when it occurs at some index. */
  lemma {:induction false} ContainsIffOccurs(haystack: string, needle: string)
    ensures Contains(haystack, needle) <==> exists i :: OccursAt(haystack, needle, i)
    decreases |haystack|
  {
    if needle <= haystack {
      assert OccursAt(haystack, needle, 0);
    } else if haystack == [] {
      assert forall i :: !OccursAt(haystack, needle, i);
    } else {
      ContainsIffOccurs(haystack[1..], needle);
      assert !OccursAt(haystack, needle, 0);
      if Contains(haystack, needle) {
        var i :| OccursAt(haystack[1..], needle, i);
        OccursAtShift(haystack, needle, i);
      } else {
        forall i | OccursAt(haystack, needle, i)
          ensures false
        {
          OccursAtShift(haystack, needle, i - 1);
        }
      }
    }
  }

  /** A needle whose first character is absent from the haystack is not found. */
  lemma {:induction false} ContainsNeedsFirst(haystack: string, needle: string)
    requires needle != [] && needle[0] !in haystack
    ensures !Contains(haystack, needle)
    decreases |haystack|
  {
    if haystack != [] {
      ContainsNeedsFirst(haystack[1..], needle);
    }
  }

  /** A one-character needle is found exactly when the character is in the string. */
  lemma {:induction false} ContainsChar(s: string, c: char)
    ensures Contains(s, [c]) <==> c in s
    decreases |s|
  {
    if s != [] {
      assert [c] <= s <==> s[0] == c;
      ContainsChar(s[1..], c);
    }
  }

  /** Index of the first character of s that is in `stops`, or |s| when there is none. */
  function IndexOfAny(s: string, stops: set<char>): (i: nat)
    ensures i <= |s|
    ensures i < |s| ==> s[i] in stops
    ensures forall k :: 0 <= k < i ==> s[k] !in stops
  {
    if s == [] || s[0] in stops then 0 else 1 + IndexOfAny(s[1..], stops)
  }

  /**
   * str_replace($search, $replace, $subject) for one search string: one scan
   * from the left that replaces each non-overlapping occurrence and never
   * rescans inserted text. An empty search string leaves the subject as it is.
   */
  function StrReplace(search: string, replace: string, subject: string): string
    decreases |subject|
  {
    if search == [] || subject == [] then subject
    else if search <= subject then replace + StrReplace(search, replace, subject[|search|..])
    else [subject[0]] + StrReplace(search, replace, subject[1..])
  }

  /** Without an occurrence of the search string, str_replace returns the subject unchanged. */
  lemma {:induction false} StrReplaceAbsent(search: string, replace: string, subject: string)
    requires !Contains(subject, search)
    ensures StrReplace(search, replace, subject) == subject
    decreases |subject|
  {
    if search != [] && subject != [] {
      StrReplaceAbsent(search, replace, subject[1..]);
    }
  }

  /**
   * The leftmost occurrence is replaced and the scan resumes right after it:
   * with `StrReplaceAbsent` this determines str_replace on every input.
   */
  lemma {:induction false} StrReplaceFirst(search: string, replace: string, a: string, b: string)
    requires search != []
    requires forall i :: 0 <= i < |a| ==> !OccursAt(a + search + b, search, i)
    ensures StrReplace(search, replace, a + search + b) == a + replace + StrReplace(search, replace, b)
    decreases |a|
  {
    var s := a + search + b;
    if a == [] {
      assert s == search + b;
      assert s[|search|..] == b;
    } else {
      assert !OccursAt(s, search, 0);
      assert search <= s ==> OccursAt(s, search, 0);
      assert s[1..] == a[1..] + search + b;
      forall i | 0 <= i < |a[1..]|
        ensures !OccursAt(a[1..] + search + b, search, i)
      {
        OccursAtShift(s, search, i);
      }
      StrReplaceFirst(search, replace, a[1..], b);
      assert s[0] == a[0];
      assert [a[0]] + a[1..] == a;
    }
  }

  /** Every character of the result comes from the subject or from the replacement. */
  lemma {:induction false} StrReplaceChars(search: string, replace: string, subject: string, c: char)
    requires c in StrReplace(search, replace, subject)
    ensures c in subject || c in replace
    decreases |subject|
  {
    if search != [] && subject != [] {
      var r := StrReplace(search, replace, subject);
      if search <= subject {
        if c !in replace {
          StrReplaceChars(search, replace, subject[|search|..], c);
          assert c in subject[|search|..];
        }
      } else if c != subject[0] {
        StrReplaceChars(search, replace, subject[1..], c);
        if c !in replace {
          assert c in subject[1..];
        }
      }
    }
  }

  lemma StrReplaceKeepsOut(search: string, replace: string, subject: string, c: char)
    requires c !in subject && c !in replace
    ensures c !in StrReplace(search, replace, subject)
  {
    if c in StrReplace(search, replace, subject) {
      StrReplaceChars(search, replace, subject, c);
    }
  }

  /** Replacing every occurrence of one character c: no c is left when the replacement has none. */
  lemma {:induction false} StrReplaceCharRemoves(c: char, replace: string, subject: string)
    requires c !in replace
    ensures c !in StrReplace([c], replace, subject)
    decreases |subject|
  {
    if subject != [] {
      StrReplaceCharRemoves(c, replace, subject[1..]);
      if [c] <= subject {
        assert subject[|[c]|..] == subject[1..];
      } else {
        assert subject[0] != c;
      }
    }
  }

  /** One step of replacing a single character: the first character is replaced or kept. */
  lemma StrReplaceCharStep(c: char, replace: string, subject: string)
    requires subject != []
    ensures StrReplace([c], replace, subject) ==
      (if subject[0] == c then replace else [subject[0]]) + StrReplace([c], replace, subject[1..])
  {
    if subject[0] == c {
      assert [c] <= subject;
      assert subject[|[c]|..] == subject[1..];
    }
  }

  /** One step of counting a character: the first character counts once when it is c. */
  lemma CountStep(c: char, s: string)
    requires s != []
    ensures multiset(s)[c] == (if s[0] == c then 1 else 0) + multiset(s[1..])[c]
  {
    assert s == [s[0]] + s[1..];
    assert multiset(s) == multiset([s[0]]) + multiset(s[1..]);
  }

  /** Replacing a character by a string lengthens the subject by |replace| - 1 per occurrence. */
  lemma {:induction false} StrReplaceCharLength(c: char, replace: string, subject: string)
    ensures |StrReplace([c], replace, subject)| == |subject| - multiset(subject)[c] + |replace| * multiset(subject)[c]
    decreases |subject|
  {
    if subject != [] {
      var tail := subject[1..];
      StrReplaceCharLength(c, replace, tail);
      StrReplaceCharStep(c, replace, subject);
      CountStep(c, subject);
      var k := |replace|;
      var n := multiset(tail)[c];
      if subject[0] == c {
        assert k * (n + 1) == k * n + k;
      }
    }
  }

  /** explode($delimiter, $s) for a one-character delimiter: the pieces between delimiters, at least one. */
  function Explode(delimiter: char, s: string): (parts: seq<string>)
    ensures |parts| >= 1
    ensures forall k :: 0 <= k < |parts| ==> delimiter !in parts[k]
    decreases |s|
  {
    var i := IndexOfAny(s, {delimiter});
    if i == |s| then [s] else [s[..i]] + Explode(delimiter, s[i + 1..])
  }

  /** implode($glue, $parts). */
  function Implode(glue: string, parts: seq<string>): string {
    if parts == [] then []
    else if |parts| == 1 then parts[0]
    else parts[0] + glue + Implode(glue, parts[1..])
  }

  /** Joining the pieces with the delimiter gives back the exploded string. */
  lemma {:induction false} ExplodeRoundTrip(delimiter: char, s: string)
    ensures Implode([delimiter], Explode(delimiter, s)) == s
    decreases |s|
  {
    var i := IndexOfAny(s, {delimiter});
    if i < |s| {
      var rest := Explode(delimiter, s[i + 1..]);
      ExplodeRoundTrip(delimiter, s[i + 1..]);
      assert ([s[..i]] + rest)[1..] == rest;
      assert Implode([delimiter], [s[..i]] + rest) == s[..i] + [delimiter] + Implode([delimiter], rest);
      assert s == s[..i] + [delimiter] + s[i + 1..];
    }
  }

  /** implode($glue, explode($d, $s)) replaces every $d in $s by $glue. */
  lemma {:induction false} ImplodeExplode(delimiter: char, glue: string, s: string)
    ensures Implode(glue, Explode(delimiter, s)) == StrReplace([delimiter], glue, s)
    decreases |s|
  {
    var i := IndexOfAny(s, {delimiter});
    if i == |s| {
      ContainsChar(s, delimiter);
      StrReplaceAbsent([delimiter], glue, s);
    } else {
      var a, b := s[..i], s[i + 1..];
      assert s == a + [delimiter] + b;
      forall k | 0 <= k < |a|
        ensures !OccursAt(a + [delimiter] + b, [delimiter], k)
      {
        assert s[k..k + 1] == [s[k]];
      }
      StrReplaceFirst([delimiter], glue, a, b);
      ImplodeExplode(delimiter, glue, b);
    }
  }
}
