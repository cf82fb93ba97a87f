/**
 The two JavaScript string operations the admin search is built from:
 `String.prototype.toLowerCase` (restricted to ASCII letters) and
 `String.prototype.includes` (substring test). Strings are `seq<char>`.
 */
module JsString {

  /** An ASCII upper-case letter, the only characters `ToLowerCase` changes. */
  predicate IsUpper(c: char) {
    'A' <= c <= 'Z'
  }

  /** Lower-cases one character: A-Z become a-z, every other character is kept. */
  function LowerChar(c: char): (r: char)
    ensures !IsUpper(r)
    ensures r == c <==> !IsUpper(c)
    ensures IsUpper(c) ==> 'a' <= r <= 'z' && r as int - c as int == 'a' as int - 'A' as int
  {
    if IsUpper(c) then (c as int - 'A' as int + 'a' as int) as char else c
  }

  /** `s.toLowerCase()`, character by character. */
  function ToLowerCase(s: string): (r: string)
    ensures |r| == |s|
    ensures forall i :: 0 <= i < |s| ==> r[i] == LowerChar(s[i])
  {
    seq(|s|, i requires 0 <= i < |s| => LowerChar(s[i]))
  }

  /** Lower-casing leaves no upper-case letter, and changes only upper-case letters. */
  lemma ToLowerCaseClears(s: string)
    ensures forall i :: 0 <= i < |s| ==> !IsUpper(ToLowerCase(s)[i])
    ensures forall i :: 0 <= i < |s| && !IsUpper(s[i]) ==> ToLowerCase(s)[i] == s[i]
  {
  }

  /** Lower-casing an already lower-cased string changes nothing. */
  lemma ToLowerCaseIdempotent(s: string)
    ensures ToLowerCase(ToLowerCase(s)) == ToLowerCase(s)
  {
    var once := ToLowerCase(s);
    assert forall i :: 0 <= i < |once| ==> ToLowerCase(once)[i] == once[i];
  }

  /** Lower-casing commutes with taking a slice. */
  lemma ToLowerCaseSlice(s: string, i: nat, j: nat)
    requires i <= j <= |s|
    ensures ToLowerCase(s)[i..j] == ToLowerCase(s[i..j])
  {
  }

  /** Lower-casing commutes with concatenation. */
  lemma ToLowerCaseAppend(s: string, t: string)
    ensures ToLowerCase(s + t) == ToLowerCase(s) + ToLowerCase(t)
  {
    var l := ToLowerCase(s + t);
    assert forall i :: 0 <= i < |s| ==> l[i] == ToLowerCase(s)[i];
    assert forall i :: |s| <= i < |l| ==> l[i] == ToLowerCase(t)[i - |s|];
  }

  /** The characters of `needle` appear in `haystack` starting at position `i`. */
  ghost predicate OccursAt(haystack: string, needle: string, i: nat) {
    i + |needle| <= |haystack| && haystack[i..i + |needle|] == needle
  }

  /** Reference definition of "`needle` is a substring of `haystack`". */
  ghost predicate Occurs(haystack: string, needle: string) {
    exists i: nat :: OccursAt(haystack, needle, i)
  }

  /** `haystack.startsWith(needle)`. */
  predicate StartsWith(haystack: string, needle: string) {
    |needle| <= |haystack| && haystack[..|needle|] == needle
  }

  /**
   `haystack.includes(needle)`: tries every start position from the left.
   Every string includes the empty string.
   */
  function Includes(haystack: string, needle: string): (r: bool)
    ensures r ==> |needle| <= |haystack|
    ensures needle == [] ==> r
    decreases |haystack|
  {
    if StartsWith(haystack, needle) then true
    else if |haystack| == 0 then false
    else Includes(haystack[1..], needle)
  }

  /** `Includes` finds an occurrence exactly when one exists. */
  lemma {:induction false} IncludesIffOccurs(haystack: string, needle: string)
    ensures Includes(haystack, needle) <==> Occurs(haystack, needle)
    decreases |haystack|
  {
    if StartsWith(haystack, needle) {
      assert OccursAt(haystack, needle, 0);
    } else if |haystack| == 0 {
      assert needle != [];
      forall i: nat ensures !OccursAt(haystack, needle, i) {
      }
    } else {
      var tail := haystack[1..];
      IncludesIffOccurs(tail, needle);
      assert !OccursAt(haystack, needle, 0);
      if Occurs(haystack, needle) {
        var i: nat :| OccursAt(haystack, needle, i);
        assert i >= 1;
        assert tail[i - 1..i - 1 + |needle|] == haystack[i..i + |needle|];
        assert OccursAt(tail, needle, i - 1);
      }
      if Occurs(tail, needle) {
        var i: nat :| OccursAt(tail, needle, i);
        assert haystack[i + 1..i + 1 + |needle|] == tail[i..i + |needle|];
        assert OccursAt(haystack, needle, i + 1);
      }
    }
  }

  /** A case-sensitive match is also a match once both sides are lower-cased. */
  lemma LowerPreservesIncludes(haystack: string, needle: string)
    requires Includes(haystack, needle)
    ensures Includes(ToLowerCase(haystack), ToLowerCase(needle))
  {
    IncludesIffOccurs(haystack, needle);
    var i: nat :| OccursAt(haystack, needle, i);
    ToLowerCaseSlice(haystack, i, i + |needle|);
    assert OccursAt(ToLowerCase(haystack), ToLowerCase(needle), i);
    IncludesIffOccurs(ToLowerCase(haystack), ToLowerCase(needle));
  }

  /** A haystack that includes a string includes every prefix of it. */
  lemma IncludesPrefix(haystack: string, needle: string, more: string)
    requires Includes(haystack, needle + more)
    ensures Includes(haystack, needle)
  {
    IncludesIffOccurs(haystack, needle + more);
    var i: nat :| OccursAt(haystack, needle + more, i);
    assert haystack[i..i + |needle|] == (needle + more)[..|needle|];
    assert OccursAt(haystack, needle, i);
    IncludesIffOccurs(haystack, needle);
  }

  /** A needle holding a character the haystack lacks is not included in it. */
  lemma AbsentCharExcludes(haystack: string, needle: string, c: char)
    requires c in needle && c !in haystack
    ensures !Includes(haystack, needle)
  {
    IncludesIffOccurs(haystack, needle);
  }

  /** A string includes every string it has as an infix. */
  lemma IncludesInfix(before: string, needle: string, after: string)
    ensures Includes(before + needle + after, needle)
  {
    var h := before + needle + after;
    assert h[|before|..|before| + |needle|] == needle;
    assert OccursAt(h, needle, |before|);
    IncludesIffOccurs(h, needle);
  }
}
