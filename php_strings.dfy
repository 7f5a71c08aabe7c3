/** The PHP string built-ins the user switcher relies on: trim(), strlen(),
    explode()/implode(), str_contains(), str_replace() and the (string) and
    (int) casts of integers. Strings are sequences of Unicode code points;
    strlen() counts the UTF-8 bytes of that text. */
module PhpStrings {

  // ---------------------------------------------------------------- trim()

  /** The characters trim() strips by default: " \t\n\r\0\x0B". */
  predicate IsTrimChar(c: char) {
    c == ' ' || c == '\t' || c == '\n' || c == '\r' || c == '\0' || c == '\U{B}'
  }

  predicate AllTrimChars(s: string) {
    forall k :: 0 <= k < |s| ==> IsTrimChar(s[k])
  }

  /** A string with nothing for trim() to strip. */
  predicate Unpadded(s: string) {
    s == [] || (!IsTrimChar(s[0]) && !IsTrimChar(s[|s| - 1]))
  }

  /** Where trim() starts: the length of the leading run of trim characters. */
  function TrimStart(s: string): (i: nat)
    ensures i <= |s|
    ensures forall k :: 0 <= k < i ==> IsTrimChar(s[k])
    ensures i < |s| ==> !IsTrimChar(s[i])
  {
    if s != [] && IsTrimChar(s[0]) then
      var i := 1 + TrimStart(s[1..]);
      assert forall k :: 1 <= k < |s| ==> s[k] == s[1..][k - 1];
      i
    else 0
  }

  /** Where trim() ends: the length of `s` without its trailing run of trim characters. */
  function TrimEnd(s: string): (j: nat)
    ensures j <= |s|
    ensures forall k :: j <= k < |s| ==> IsTrimChar(s[k])
    ensures 0 < j ==> !IsTrimChar(s[j - 1])
  {
    if s != [] && IsTrimChar(s[|s| - 1]) then TrimEnd(s[..|s| - 1]) else |s|
  }

  /** trim(): the text between the leading and the trailing run of trim characters. */
  function Trim(s: string): (r: string)
    ensures Unpadded(r)
    ensures TrimStart(s) + |r| <= |s| && r == s[TrimStart(s)..TrimStart(s) + |r|]
    ensures forall k :: TrimStart(s) + |r| <= k < |s| ==> IsTrimChar(s[k])
  {
    var i := TrimStart(s);
    if i == |s| then [] else s[i..TrimEnd(s)]
  }

  /** trim() removes exactly the surrounding trim characters: padding an
      unpadded string on either side with them gives it back. */
  lemma TrimOfPadded(p: string, s: string, q: string)
    requires AllTrimChars(p) && AllTrimChars(q) && Unpadded(s)
    ensures Trim(p + s + q) == s
  {
    var x := p + s + q;
    assert forall k :: 0 <= k < |p| ==> x[k] == p[k];
    assert forall k :: |p| + |s| <= k < |x| ==> x[k] == q[k - |p| - |s|];
    if s == [] {
      assert TrimStart(x) == |x|;
    } else {
      assert x[|p|] == s[0] && x[|p| + |s| - 1] == s[|s| - 1];
      assert TrimStart(x) == |p|;
      assert TrimEnd(x) == |p| + |s|;
      assert x[|p|..|p| + |s|] == s;
    }
  }

  /** trim() leaves an unpadded string alone, so trimming twice is trimming once. */
  lemma TrimUnpadded(s: string)
    requires Unpadded(s)
    ensures Trim(s) == s
  {
    TrimOfPadded([], s, []);
    assert [] + s + [] == s;
  }

  lemma TrimIdempotent(s: string)
    ensures Trim(Trim(s)) == Trim(s)
  {
    TrimUnpadded(Trim(s));
  }

  // ---------------------------------------------------------------- strlen()

  /** Number of bytes UTF-8 uses for one code point. */
  function Utf8Width(c: char): nat {
    if c as int < 0x80 then 1
    else if c as int < 0x800 then 2
    else if c as int < 0x1_0000 then 3
    else 4
  }

  /** strlen() of the UTF-8 encoding of `s`: between one and four bytes per code point. */
  function Utf8Length(s: string): (n: nat)
    ensures |s| <= n <= 4 * |s|
  {
    if s == [] then 0 else Utf8Width(s[0]) + Utf8Length(s[1..])
  }

  /** For ASCII text strlen() is the number of characters. */
  lemma {:induction false} AsciiUtf8Length(s: string)
    requires forall k :: 0 <= k < |s| ==> s[k] as int < 0x80
    ensures Utf8Length(s) == |s|
  {
    if s != [] {
      AsciiUtf8Length(s[1..]);
    }
  }

  // ---------------------------------------------------------------- explode(), implode()

  /** implode($sep, $pieces) for a non-empty array of pieces. */
  function Implode(sep: string, pieces: seq<string>): string
    requires |pieces| >= 1
  {
    if |pieces| == 1 then pieces[0] else pieces[0] + sep + Implode(sep, pieces[1..])
  }

  /** explode($sep, $s): the pieces between the left-to-right, non-overlapping
      occurrences of a non-empty separator. */
  function Explode(sep: string, s: string): (pieces: seq<string>)
    requires |sep| > 0
    ensures |pieces| >= 1
    decreases |s|
  {
    if |s| < |sep| then [s]
    else if s[..|sep|] == sep then [""] + Explode(sep, s[|sep|..])
    else
      var rest := Explode(sep, s[1..]);
      [[s[0]] + rest[0]] + rest[1..]
  }

  /** The first piece of explode() is a prefix of the string. */
  lemma {:induction false} ExplodeHeadIsPrefix(sep: string, s: string)
    requires |sep| > 0
    ensures Explode(sep, s)[0] <= s
    decreases |s|
  {
    if |s| >= |sep| && s[..|sep|] != sep {
      ExplodeHeadIsPrefix(sep, s[1..]);
      assert [s[0]] + s[1..] == s;
    }
  }

  /** No piece of explode() contains the separator: every occurrence of it is
      a split point. */
  lemma {:induction false} ExplodePiecesAvoidSeparator(sep: string, s: string)
    requires |sep| > 0
    ensures forall k :: 0 <= k < |Explode(sep, s)| ==> !Contains(Explode(sep, s)[k], sep)
    decreases |s|
  {
    if |s| < |sep| {
    } else if s[..|sep|] == sep {
      ExplodePiecesAvoidSeparator(sep, s[|sep|..]);
      assert !Contains("", sep);
    } else {
      var rest := Explode(sep, s[1..]);
      ExplodePiecesAvoidSeparator(sep, s[1..]);
      ExplodeHeadIsPrefix(sep, s[1..]);
      var head := [s[0]] + rest[0];
      assert head <= s;
      if |sep| <= |head| {
        assert head[..|sep|] == s[..|sep|];
        assert head[1..] == rest[0];
      }
      assert !Contains(head, sep);
      assert Explode(sep, s) == [head] + rest[1..];
    }
  }

  /** str_contains($s, $needle): some suffix of `s` starts with `needle`. */
  predicate Contains(s: string, needle: string)
    decreases |s|
  {
    |needle| <= |s| && (s[..|needle|] == needle || Contains(s[1..], needle))
  }

  /** `needle` occurs in `s` starting at position `i`. */
  predicate OccursAt(s: string, needle: string, i: int) {
    0 <= i && i + |needle| <= |s| && s[i..i + |needle|] == needle
  }

  /** str_contains() holds exactly when the needle occurs at some position. */
  lemma {:induction false} ContainsIsSomeOccurrence(s: string, needle: string)
    ensures Contains(s, needle) <==> exists i :: OccursAt(s, needle, i)
    decreases |s|
  {
    if |needle| <= |s| && s[..|needle|] != needle {
      assert !OccursAt(s, needle, 0);
      ContainsIsSomeOccurrence(s[1..], needle);
      if Contains(s[1..], needle) {
        var i :| OccursAt(s[1..], needle, i);
        assert s[i + 1..i + 1 + |needle|] == s[1..][i..i + |needle|];
        assert OccursAt(s, needle, i + 1);
      }
      if i :| OccursAt(s, needle, i) {
        assert s[1..][i - 1..i - 1 + |needle|] == s[i..i + |needle|];
        assert OccursAt(s[1..], needle, i - 1);
      }
    } else if |needle| <= |s| {
      assert OccursAt(s, needle, 0);
    }
  }

  /** str_replace($search, $replace, $s): every left-to-right, non-overlapping
      occurrence of a non-empty `search` replaced by `replace`. */
  function ReplaceAll(s: string, search: string, replace: string): (r: string)
    requires |search| > 0
    ensures !Contains(s, search) ==> r == s
    decreases |s|
  {
    if |s| < |search| then s
    else if s[..|search|] == search then replace + ReplaceAll(s[|search|..], search, replace)
    else [s[0]] + ReplaceAll(s[1..], search, replace)
  }

  lemma ImplodeExtendsHead(sep: string, x: string, pieces: seq<string>)
    requires |pieces| >= 1
    ensures Implode(sep, [x + pieces[0]] + pieces[1..]) == x + Implode(sep, pieces)
  {
    var p := [x + pieces[0]] + pieces[1..];
    if |pieces| > 1 {
      assert p[1..] == pieces[1..];
    }
  }

  /** str_replace() is explode() followed by implode() with the replacement as glue. */
  lemma {:induction false} ReplaceAllIsImplodeOfExplode(s: string, sep: string, replace: string)
    requires |sep| > 0
    ensures ReplaceAll(s, sep, replace) == Implode(replace, Explode(sep, s))
    decreases |s|
  {
    if |s| < |sep| {
    } else if s[..|sep|] == sep {
      ReplaceAllIsImplodeOfExplode(s[|sep|..], sep, replace);
      var rest := Explode(sep, s[|sep|..]);
      assert ([""] + rest)[1..] == rest;
    } else {
      ReplaceAllIsImplodeOfExplode(s[1..], sep, replace);
      ImplodeExtendsHead(replace, [s[0]], Explode(sep, s[1..]));
    }
  }

  /** Replacing a string by itself changes nothing. */
  lemma {:induction false} ReplaceAllBySelf(s: string, sep: string)
    requires |sep| > 0
    ensures ReplaceAll(s, sep, sep) == s
    decreases |s|
  {
    if |s| < |sep| {
    } else if s[..|sep|] == sep {
      ReplaceAllBySelf(s[|sep|..], sep);
      assert s == s[..|sep|] + s[|sep|..];
    } else {
      ReplaceAllBySelf(s[1..], sep);
      assert s == [s[0]] + s[1..];
    }
  }

  /** implode() undoes explode() with the same separator. */
  lemma ImplodeOfExplode(sep: string, s: string)
    requires |sep| > 0
    ensures Implode(sep, Explode(sep, s)) == s
  {
    ReplaceAllIsImplodeOfExplode(s, sep, sep);
    ReplaceAllBySelf(s, sep);
  }

  /** A string that does not hold `c` does not contain the one-character string [c]. */
  lemma {:induction false} NotContainsChar(s: string, c: char)
    requires c !in s
    ensures !Contains(s, [c])
    decreases |s|
  {
    if |s| >= 1 {
      assert s[..1] == [s[0]];
      NotContainsChar(s[1..], c);
    }
  }

  /** Without an occurrence of the separator explode() yields the whole string. */
  lemma {:induction false} ExplodeWithoutSeparator(sep: string, s: string)
    requires |sep| > 0 && !Contains(s, sep)
    ensures Explode(sep, s) == [s]
    decreases |s|
  {
    if |s| >= |sep| {
      ExplodeWithoutSeparator(sep, s[1..]);
      assert [s[0]] + s[1..] == s;
    }
  }

  lemma {:induction false} ExplodeAtFirstSeparator(c: char, head: string, tail: string)
    requires c !in head
    ensures Explode([c], head + [c] + tail) == [head] + Explode([c], tail)
    decreases |head|
  {
    var s := head + [c] + tail;
    if head == [] {
      assert s == [c] + tail;
      assert s[1..] == tail;
    } else {
      assert s[1..] == head[1..] + [c] + tail;
      ExplodeAtFirstSeparator(c, head[1..], tail);
      assert [head[0]] + head[1..] == head;
    }
  }

  /** explode() undoes implode() for a one-character separator that no piece contains. */
  lemma {:induction false} ExplodeOfImplode(c: char, pieces: seq<string>)
    requires |pieces| >= 1
    requires forall k :: 0 <= k < |pieces| ==> c !in pieces[k]
    ensures Explode([c], Implode([c], pieces)) == pieces
  {
    if |pieces| == 1 {
      NotContainsChar(pieces[0], c);
      ExplodeWithoutSeparator([c], pieces[0]);
    } else {
      ExplodeOfImplode(c, pieces[1..]);
      ExplodeAtFirstSeparator(c, pieces[0], Implode([c], pieces[1..]));
      assert [pieces[0]] + pieces[1..] == pieces;
    }
  }

  /** array_map(trim(...), $pieces). */
  function TrimAll(pieces: seq<string>): (r: seq<string>)
    ensures |r| == |pieces|
    ensures forall k :: 0 <= k < |r| ==> r[k] == Trim(pieces[k])
  {
    seq(|pieces|, k requires 0 <= k < |pieces| => Trim(pieces[k]))
  }

  // ---------------------------------------------------------------- integer casts

  function DigitChar(d: nat): char
    requires d < 10
  {
    ('0' as int + d) as char
  }

  function DigitValue(c: char): int {
    c as int - '0' as int
  }

  /** A decimal numeral without leading zeros. */
  predicate CanonicalNat(r: string) {
    && r != []
    && (forall k :: 0 <= k < |r| ==> '0' <= r[k] <= '9')
    && (r[0] == '0' ==> r == "0")
  }

  /** A canonical numeral, or a minus sign followed by a non-zero one. */
  predicate CanonicalInt(r: string) {
    CanonicalNat(r) || (|r| >= 2 && r[0] == '-' && r[1] != '0' && CanonicalNat(r[1..]))
  }

  /** Decimal digits of a natural number, without leading zeros. */
  function NatToString(n: nat): (r: string)
    ensures CanonicalNat(r) && ParseNat(r) == n
  {
    if n < 10 then [DigitChar(n)]
    else
      var r := NatToString(n / 10) + [DigitChar(n % 10)];
      assert r[..|r| - 1] == NatToString(n / 10);
      r
  }

  /** The value of a string of decimal digits (the (int) cast of one). */
  function ParseNat(s: string): (n: int)
    ensures (forall k :: 0 <= k < |s| ==> '0' <= s[k] <= '9') ==> n >= 0
  {
    if s == [] then 0 else ParseNat(s[..|s| - 1]) * 10 + DigitValue(s[|s| - 1])
  }

  /** The (int) cast of an optionally negative decimal string. */
  function ParseInt(s: string): int {
    if s != [] && s[0] == '-' then -ParseNat(s[1..]) else ParseNat(s)
  }

  /** The (string) cast of an int, which the (int) cast turns back into it. */
  function IntToString(i: int): (r: string)
    ensures CanonicalInt(r) && ParseInt(r) == i
  {
    if i < 0 then
      var r := "-" + NatToString(-i);
      assert r[1..] == NatToString(-i);
      r
    else
      NatToString(i)
  }

  /** A digit string that does not start with '0' has a positive value. */
  lemma {:induction false} LeadingDigitPositive(r: string)
    requires r != [] && '1' <= r[0] <= '9'
    requires forall k :: 0 <= k < |r| ==> '0' <= r[k] <= '9'
    ensures ParseNat(r) >= 1
    decreases |r|
  {
    if |r| > 1 {
      LeadingDigitPositive(r[..|r| - 1]);
    }
  }

  /** Printing the value of a canonical numeral gives the numeral back, so
      NatToString(n) is the only canonical numeral of n. */
  lemma {:induction false} NatToStringOfParse(r: string)
    requires CanonicalNat(r)
    ensures NatToString(ParseNat(r)) == r
    decreases |r|
  {
    var last := r[|r| - 1];
    assert DigitChar(DigitValue(last) as nat) == last;
    if |r| > 1 {
      var p := r[..|r| - 1];
      assert p[0] == r[0];
      assert CanonicalNat(p);
      LeadingDigitPositive(p);
      NatToStringOfParse(p);
      var a := ParseNat(p);
      var n := ParseNat(r);
      assert n == a * 10 + DigitValue(last);
      assert n / 10 == a && n % 10 == DigitValue(last);
      assert NatToString(n) == NatToString(a) + [DigitChar(DigitValue(last) as nat)];
      assert p + [last] == r;
    }
  }

  /** The same for ints: IntToString(i) is the only canonical numeral of i. */
  lemma IntToStringOfParse(r: string)
    requires CanonicalInt(r)
    ensures IntToString(ParseInt(r)) == r
  {
    if CanonicalNat(r) {
      NatToStringOfParse(r);
    } else {
      LeadingDigitPositive(r[1..]);
      NatToStringOfParse(r[1..]);
      assert "-" + r[1..] == r;
    }
  }
}
