/** The string operations the task code relies on: `toLowerCase` (over ASCII),
    `includes` and `trim`. */
module Text {

  /** A-Z lower-cased; every other character is left alone. */
  function LowerChar(c: char): char {
    if 'A' <= c <= 'Z' then (c as int + 32) as char else c
  }

  /** `toLowerCase`, restricted to ASCII letters. */
  function ToLower(s: string): (r: string)
    ensures |r| == |s|
    ensures forall i :: 0 <= i < |r| ==> !('A' <= r[i] <= 'Z')
    ensures forall i :: 0 <= i < |s| && !('A' <= s[i] <= 'Z') ==> r[i] == s[i]
    ensures forall i :: 0 <= i < |s| && 'A' <= s[i] <= 'Z' ==> r[i] == (s[i] as int + 32) as char
  {
    if |s| == 0 then "" else [LowerChar(s[0])] + ToLower(s[1..])
  }

  /** A string with no capital letter lower-cases to itself. */
  lemma ToLowerWithoutCapitals(s: string)
    requires forall i :: 0 <= i < |s| ==> !('A' <= s[i] <= 'Z')
    ensures ToLower(s) == s
  {
    assert forall i :: 0 <= i < |s| ==> ToLower(s)[i] == s[i];
  }

  /** `q` occurs in `s` starting at position `i`. */
  predicate OccursAt(s: string, q: string, i: int) {
    0 <= i && i + |q| <= |s| && s[i..i + |q|] == q
  }

  /** `s.includes(q)`: `q` is a contiguous substring of `s`; every string includes "". */
  predicate Includes(s: string, q: string)
    decreases |s|
  {
    (|q| <= |s| && s[..|q|] == q) || (|s| > 0 && Includes(s[1..], q))
  }

  /** Wherever `Includes` holds there is a position where `q` occurs. */
  lemma {:induction false} IncludesImpliesOccurs(s: string, q: string)
    requires Includes(s, q)
    ensures exists i :: OccursAt(s, q, i)
    decreases |s|
  {
    if |q| <= |s| && s[..|q|] == q {
      assert OccursAt(s, q, 0);
    } else {
      IncludesImpliesOccurs(s[1..], q);
      var i :| OccursAt(s[1..], q, i);
      assert s[i + 1..i + 1 + |q|] == s[1..][i..i + |q|];
      assert OccursAt(s, q, i + 1);
    }
  }

  /** An occurrence of `q` at position `i` makes `Includes` hold. */
  lemma {:induction false} OccursImpliesIncludes(s: string, q: string, i: int)
    requires OccursAt(s, q, i)
    ensures Includes(s, q)
    decreases i
  {
    if i == 0 {
      assert s[..|q|] == q;
    } else {
      assert s[1..][i - 1..i - 1 + |q|] == s[i..i + |q|];
      OccursImpliesIncludes(s[1..], q, i - 1);
    }
  }

  /** `Includes` holds exactly when there is a position where `q` occurs. */
  lemma IncludesIffOccurs(s: string, q: string)
    ensures Includes(s, q) <==> exists i :: OccursAt(s, q, i)
  {
    if Includes(s, q) {
      IncludesImpliesOccurs(s, q);
    }
    if i :| OccursAt(s, q, i) {
      OccursImpliesIncludes(s, q, i);
    }
  }

  /** A non-empty query whose first character never appears in `s` is not included in it. */
  lemma {:induction false} NotIncludesWithoutFirstChar(s: string, q: string)
    requires |q| > 0 && forall i :: 0 <= i < |s| ==> s[i] != q[0]
    ensures !Includes(s, q)
    decreases |s|
  {
    if |q| <= |s| {
      assert s[..|q|][0] == s[0];
    }
    if |s| > 0 {
      NotIncludesWithoutFirstChar(s[1..], q);
    }
  }

  /** The empty query occurs in every string. */
  lemma IncludesEmpty(s: string)
    ensures Includes(s, "")
  {
    assert s[..0] == "";
  }

  /** The code points `String.prototype.trim` removes: the ECMAScript
      WhiteSpace set (tab, vertical tab, form feed, space, no-break space,
      byte-order mark and the Unicode "Zs" separators) and the LineTerminator
      set (line feed, carriage return, line and paragraph separators). */
  predicate IsWhitespace(c: char) {
    || c == '\t' || c == '\U{000B}' || c == '\U{000C}' || c == ' '
    || c == '\U{00A0}' || c == '\U{FEFF}' || c == '\U{1680}'
    || ('\U{2000}' <= c <= '\U{200A}')
    || c == '\U{202F}' || c == '\U{205F}' || c == '\U{3000}'
    || c == '\n' || c == '\r' || c == '\U{2028}' || c == '\U{2029}'
  }

  /** Drops leading whitespace: the result is the suffix after it. */
  function TrimStart(s: string): (r: string)
    ensures |r| <= |s| && r == s[|s| - |r|..]
    ensures forall i :: 0 <= i < |s| - |r| ==> IsWhitespace(s[i])
    ensures |r| > 0 ==> !IsWhitespace(r[0])
    decreases |s|
  {
    if |s| > 0 && IsWhitespace(s[0]) then TrimStart(s[1..]) else s
  }

  /** Drops trailing whitespace: the result is the prefix before it. */
  function TrimEnd(s: string): (r: string)
    ensures |r| <= |s| && r == s[..|r|]
    ensures forall i :: |r| <= i < |s| ==> IsWhitespace(s[i])
    ensures |r| > 0 ==> !IsWhitespace(r[|r| - 1])
    decreases |s|
  {
    if |s| > 0 && IsWhitespace(s[|s| - 1]) then TrimEnd(s[..|s| - 1]) else s
  }

  /** `s.trim()`: a contiguous slice of `s` with the whitespace at both ends removed. */
  function Trim(s: string): (r: string)
    ensures |r| <= |s|
    ensures |r| > 0 ==> !IsWhitespace(r[0]) && !IsWhitespace(r[|r| - 1])
    ensures |r| == 0 <==> forall i :: 0 <= i < |s| ==> IsWhitespace(s[i])
    ensures exists i :: && OccursAt(s, r, i)
                        && (forall j :: 0 <= j < i ==> IsWhitespace(s[j]))
                        && (forall j :: i + |r| <= j < |s| ==> IsWhitespace(s[j]))
  {
    var t := TrimStart(s);
    var r := TrimEnd(t);
    assert |r| > 0 ==> r[0] == t[0];
    assert |t| > 0 ==> t[0] == s[|s| - |t|] && |r| > 0;
    TrimmedIsSlice(s, t, r);
    r
  }

  /** Cutting white space off the front of `s` to get `t`, then off the back
      of `t` to get `r`, leaves `r` as a slice of `s` with only white space
      around it. */
  lemma TrimmedIsSlice(s: string, t: string, r: string)
    requires |t| <= |s| && t == s[|s| - |t|..]
    requires forall i :: 0 <= i < |s| - |t| ==> IsWhitespace(s[i])
    requires |r| <= |t| && r == t[..|r|]
    requires forall i :: |r| <= i < |t| ==> IsWhitespace(t[i])
    ensures exists i :: && OccursAt(s, r, i)
                        && (forall j :: 0 <= j < i ==> IsWhitespace(s[j]))
                        && (forall j :: i + |r| <= j < |s| ==> IsWhitespace(s[j]))
  {
    var i := |s| - |t|;
    assert s[i..i + |r|] == r;
    assert forall j :: i + |r| <= j < |s| ==> s[j] == t[j - i];
    assert OccursAt(s, r, i);
  }
}
