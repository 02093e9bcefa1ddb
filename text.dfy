/**
 * The string primitives the alias pipeline is built from: JavaScript's
 * `trim`, the global `/\s+/g` replacement by the empty string, an ASCII
 * `toLowerCase`, the UTF-16 `length` of a string and `split(sep)[0]`.
 */
module Text {

  /**
   * ECMAScript WhiteSpace and LineTerminator code points: the set that both
   * `String.prototype.trim` and the regular-expression class `\s` match.
   */
  predicate IsWhitespace(c: char) {
    var x := c as int;
    x == 0x09 || x == 0x0A || x == 0x0B || x == 0x0C || x == 0x0D || x == 0x20
    || x == 0xA0 || x == 0x1680 || (0x2000 <= x <= 0x200A) || x == 0x2028 || x == 0x2029
    || x == 0x202F || x == 0x205F || x == 0x3000 || x == 0xFEFF
  }

  predicate AllWhitespace(s: string) {
    forall i :: 0 <= i < |s| ==> IsWhitespace(s[i])
  }

  predicate NoWhitespace(s: string) {
    forall i :: 0 <= i < |s| ==> !IsWhitespace(s[i])
  }

  /**
   * JavaScript's `s.length`: the number of UTF-16 code units, so a character
   * outside the Basic Multilingual Plane counts twice.
   */
  function Utf16Length(s: string): (n: nat)
    ensures |s| <= n <= 2 * |s|
    ensures n < 2 <==> |s| == 0 || (|s| == 1 && s[0] as int < 0x1_0000)
  {
    if s == [] then 0 else (if s[0] as int < 0x1_0000 then 1 else 2) + Utf16Length(s[1..])
  }

  /** Drops the leading whitespace: what remains is a suffix of `s` that starts with a non-whitespace character. */
  function TrimStart(s: string): (r: string)
    ensures |r| <= |s| && r == s[|s| - |r|..]
    ensures AllWhitespace(s[..|s| - |r|])
    ensures r == [] || !IsWhitespace(r[0])
  {
    if s != [] && IsWhitespace(s[0]) then TrimStart(s[1..]) else s
  }

  /** Drops the trailing whitespace: what remains is a prefix of `s` that ends with a non-whitespace character. */
  function TrimEnd(s: string): (r: string)
    ensures |r| <= |s| && r == s[..|r|]
    ensures AllWhitespace(s[|r|..])
    ensures r == [] || !IsWhitespace(r[|r| - 1])
  {
    if s != [] && IsWhitespace(s[|s| - 1]) then TrimEnd(s[..|s| - 1]) else s
  }

  /** `r` sits at offset `a` of `s` with nothing but whitespace before and after it. */
  predicate TrimmedAt(s: string, a: int, r: string) {
    0 <= a <= |s| - |r| && r == s[a..a + |r|] && AllWhitespace(s[..a]) && AllWhitespace(s[a + |r|..])
  }

  /** `s.trim()`: the infix left between a leading and a trailing whitespace run. */
  function Trim(s: string): (r: string)
    ensures |r| <= |s|
    ensures exists a :: TrimmedAt(s, a, r)
    ensures r == [] <==> AllWhitespace(s)
    ensures r != [] ==> !IsWhitespace(r[0]) && !IsWhitespace(r[|r| - 1])
    ensures StripWhitespace(r) == StripWhitespace(s)
  {
    TrimmedIsEmptyIff(s);
    TrimIsInfix(s);
    StripWhitespaceOfTrimmed(s);
    TrimEnd(TrimStart(s))
  }

  /** Trimming removes a whitespace run at each end and nothing else. */
  lemma TrimIsInfix(s: string)
    ensures exists a :: TrimmedAt(s, a, TrimEnd(TrimStart(s)))
  {
    var t := TrimStart(s);
    var r := TrimEnd(t);
    var a := |s| - |t|;
    assert t == s[a..];
    assert r == t[..|r|] == s[a..a + |r|];
    assert t[|r|..] == s[a + |r|..];
    assert TrimmedAt(s, a, r);
  }

  /** Trimming leaves nothing exactly when there was nothing but whitespace. */
  lemma TrimmedIsEmptyIff(s: string)
    ensures TrimEnd(TrimStart(s)) == [] <==> AllWhitespace(s)
  {
    var t := TrimStart(s);
    var lead := s[..|s| - |t|];
    assert s == lead + t;
    if TrimEnd(t) == [] {
      assert AllWhitespace(t);
      assert t == [];
      assert s == lead;
    }
  }

  /** A string that neither starts nor ends with whitespace is its own trim. */
  lemma TrimUnchanged(s: string)
    requires s != [] && !IsWhitespace(s[0]) && !IsWhitespace(s[|s| - 1])
    ensures Trim(s) == s
  {
  }

  /** `s.replace(/\s+/g, "")`: every whitespace character removed, the others kept in order. */
  function StripWhitespace(s: string): (r: string)
    ensures |r| <= |s|
    ensures forall i :: 0 <= i < |r| ==> !IsWhitespace(r[i])
    ensures r == [] <==> AllWhitespace(s)
  {
    if s == [] then []
    else if IsWhitespace(s[0]) then StripWhitespace(s[1..]) else [s[0]] + StripWhitespace(s[1..])
  }

  /** Stripping keeps exactly the non-whitespace characters. */
  lemma {:induction false} StripWhitespaceMembers(s: string)
    ensures forall c :: c in StripWhitespace(s) <==> c in s && !IsWhitespace(c)
  {
    if s != [] {
      assert s == [s[0]] + s[1..];
      StripWhitespaceMembers(s[1..]);
    }
  }

  lemma {:induction false} StripWhitespaceAppend(a: string, b: string)
    ensures StripWhitespace(a + b) == StripWhitespace(a) + StripWhitespace(b)
  {
    if a == [] {
      assert a + b == b;
    } else {
      assert (a + b)[1..] == a[1..] + b;
      StripWhitespaceAppend(a[1..], b);
    }
  }

  /** Stripping leaves a string without whitespace as it is. */
  lemma {:induction false} StripWhitespaceOfWord(s: string)
    requires NoWhitespace(s)
    ensures StripWhitespace(s) == s
  {
    if s != [] {
      StripWhitespaceOfWord(s[1..]);
    }
  }

  /** Whitespace between two words disappears and the words are joined. */
  lemma StripWhitespaceOfTwoWords(first: string, space: string, last: string)
    requires NoWhitespace(first) && AllWhitespace(space) && NoWhitespace(last)
    ensures StripWhitespace(first + space + last) == first + last
  {
    StripWhitespaceOfWord(first);
    StripWhitespaceOfWord(last);
    assert StripWhitespace(space) == [];
    StripWhitespaceAppend(first, space);
    assert StripWhitespace(first + space) == first;
    StripWhitespaceAppend(first + space, last);
  }

  /** Dropping leading whitespace does not change what stripping leaves. */
  lemma StripWhitespaceOfTrimStart(s: string)
    ensures StripWhitespace(TrimStart(s)) == StripWhitespace(s)
  {
    var t := TrimStart(s);
    var lead := s[..|s| - |t|];
    assert s == lead + t;
    StripWhitespaceAppend(lead, t);
  }

  /** Dropping trailing whitespace does not change what stripping leaves. */
  lemma StripWhitespaceOfTrimEnd(s: string)
    ensures StripWhitespace(TrimEnd(s)) == StripWhitespace(s)
  {
    var r := TrimEnd(s);
    var trail := s[|r|..];
    assert s == r + trail;
    StripWhitespaceAppend(r, trail);
  }

  /** Trimming first does not change what stripping every whitespace character leaves. */
  lemma StripWhitespaceOfTrimmed(s: string)
    ensures StripWhitespace(TrimEnd(TrimStart(s))) == StripWhitespace(s)
  {
    StripWhitespaceOfTrimStart(s);
    StripWhitespaceOfTrimEnd(TrimStart(s));
  }

  predicate IsAsciiUpper(c: char) {
    'A' <= c <= 'Z'
  }

  /** ASCII `toLowerCase` of one character. */
  function LowerChar(c: char): (r: char)
    ensures !IsAsciiUpper(r)
    ensures IsAsciiUpper(c) ==> 'a' <= r <= 'z' && r as int - 'a' as int == c as int - 'A' as int
    ensures !IsAsciiUpper(c) ==> r == c
  {
    if IsAsciiUpper(c) then (c as int - 'A' as int + 'a' as int) as char else c
  }

  /** `s.toLowerCase()` restricted to ASCII letters. */
  function Lower(s: string): (r: string)
    ensures |r| == |s|
    ensures forall i :: 0 <= i < |r| ==> r[i] == LowerChar(s[i])
    ensures forall i :: 0 <= i < |r| ==> !IsAsciiUpper(r[i]) && (IsWhitespace(r[i]) <==> IsWhitespace(s[i]))
  {
    if s == [] then [] else [LowerChar(s[0])] + Lower(s[1..])
  }

  /** Lowercasing never creates or removes whitespace, so it commutes with stripping it. */
  lemma {:induction false} StripWhitespaceOfLower(s: string)
    ensures StripWhitespace(Lower(s)) == Lower(StripWhitespace(s))
  {
    if s != [] {
      assert Lower(s) == [LowerChar(s[0])] + Lower(s[1..]);
      assert Lower(s)[1..] == Lower(s[1..]);
      StripWhitespaceOfLower(s[1..]);
    }
  }

  /** `s.split(sep)[0]`: everything before the first `sep`, or all of `s` when it has none. */
  function FirstField(s: string, sep: char): (r: string)
    ensures |r| <= |s| && r == s[..|r|]
    ensures sep !in r
    ensures |r| < |s| ==> s[|r|] == sep
  {
    if s == [] || s[0] == sep then [] else [s[0]] + FirstField(s[1..], sep)
  }

  /** Joining a separator-free field to anything with the separator gives that field back. */
  lemma FirstFieldOfJoin(x: string, sep: char, y: string)
    requires sep !in x
    ensures FirstField(x + [sep] + y, sep) == x
  {
    var s := x + [sep] + y;
    assert forall k :: 0 <= k < |x| ==> s[k] == x[k] != sep;
    assert s[|x|] == sep;
    assert s[..|x|] == x;
  }
}
