/**
 * The three string operations the command menu is built from:
 * `String.prototype.toUpperCase` (ASCII letters only), `Array.prototype.join('')`
 * over a list of strings and `String.prototype.includes`.
 */
module TextOps {

  /** An ASCII lower-case letter, the only characters `Upper` changes. */
  predicate IsLower(c: char) {
    'a' <= c <= 'z'
  }

  /** No character of `s` is an ASCII lower-case letter. */
  predicate NoLower(s: string) {
    forall i :: 0 <= i < |s| ==> !IsLower(s[i])
  }

  /** ASCII upper-casing of one character. */
  function UpperChar(c: char): (u: char)
    ensures !IsLower(u)
    ensures IsLower(c) ==> 'A' <= u <= 'Z' && u as int + 32 == c as int
    ensures !IsLower(c) ==> u == c
  {
    if IsLower(c) then (c as int - 32) as char else c
  }

  /** `s.toUpperCase()`, restricted to ASCII letters: the string keeps its length
      and every character is upper-cased where it stands. */
  function Upper(s: string): (r: string)
    ensures |r| == |s|
    ensures forall i :: 0 <= i < |s| ==> r[i] == UpperChar(s[i])
    ensures NoLower(r)
  {
    if s == [] then [] else [UpperChar(s[0])] + Upper(s[1..])
  }

  /** Upper-casing leaves a string with no lower-case letter as it is. */
  lemma UpperFixesNoLower(s: string)
    requires NoLower(s)
    ensures Upper(s) == s
  {
    assert forall i :: 0 <= i < |s| ==> Upper(s)[i] == s[i];
  }

  /** Upper-casing twice is upper-casing once. */
  lemma UpperIdempotent(s: string)
    ensures Upper(Upper(s)) == Upper(s)
  {
    UpperFixesNoLower(Upper(s));
  }

  /** `parts.join('')`: the parts written one after another. */
  function Join(parts: seq<string>): (r: string)
    ensures r == [] <==> forall i :: 0 <= i < |parts| ==> parts[i] == []
  {
    if parts == [] then [] else parts[0] + Join(parts[1..])
  }

  /** Joining two lists is joining each and writing the results one after the other. */
  lemma {:induction false} JoinAppend(a: seq<string>, b: seq<string>)
    ensures Join(a + b) == Join(a) + Join(b)
  {
    if a == [] {
      assert a + b == b;
    } else {
      assert (a + b)[1..] == a[1..] + b;
      JoinAppend(a[1..], b);
    }
  }

  /** `t` occurs in `s` starting at position `i`. */
  ghost predicate OccursAt(t: string, s: string, i: nat) {
    i + |t| <= |s| && s[i..i + |t|] == t
  }

  /** `s.includes(t)`: `t` is a prefix of `s` or of one of its suffixes. */
  function Contains(s: string, t: string): (b: bool)
    ensures t == [] ==> b
    ensures b ==> |t| <= |s|
    decreases |s|
  {
    t <= s || (s != [] && Contains(s[1..], t))
  }

  /** `Contains` is substring containment: it holds exactly when `t` occurs at some position of `s`. */
  lemma ContainsIffOccurs(s: string, t: string)
    ensures Contains(s, t) <==> exists i: nat :: OccursAt(t, s, i)
  {
    if Contains(s, t) {
      ContainedOccurs(s, t);
    }
    if i: nat :| OccursAt(t, s, i) {
      ContainsAt(s, t, i);
    }
  }

  /** What `Contains` accepts occurs somewhere. */
  lemma {:induction false} ContainedOccurs(s: string, t: string)
    requires Contains(s, t)
    ensures exists i: nat :: OccursAt(t, s, i)
    decreases |s|
  {
    if t <= s {
      assert OccursAt(t, s, 0);
    } else {
      ContainedOccurs(s[1..], t);
      var j: nat :| OccursAt(t, s[1..], j);
      assert s[j + 1..j + 1 + |t|] == s[1..][j..j + |t|];
      assert OccursAt(t, s, j + 1);
    }
  }

  /** A string is contained wherever it occurs. */
  lemma {:induction false} ContainsAt(s: string, t: string, i: nat)
    requires OccursAt(t, s, i)
    ensures Contains(s, t)
    decreases i
  {
    if i == 0 {
      assert t <= s;
    } else {
      assert s[1..][i - 1..i - 1 + |t|] == s[i..i + |t|];
      ContainsAt(s[1..], t, i - 1);
    }
  }

  /** A string holding a character that `s` lacks is not contained in `s`. */
  lemma NotContainedWithoutChar(s: string, t: string, c: char)
    requires c in t && c !in s
    ensures !Contains(s, t)
  {
    ContainsIffOccurs(s, t);
  }

  /** Upper-casing introduces an upper-case letter only where its lower-case
      form or itself was. */
  lemma UpperLacksLetter(s: string, lower: char)
    requires IsLower(lower) && lower !in s && UpperChar(lower) !in s
    ensures UpperChar(lower) !in Upper(s)
  {
  }
}
