/** The three Go string operations the ledger applies to user text:
    strings.TrimSpace, strings.ToLower and strings.Contains. */
module Text {

  /** unicode.IsSpace: the Unicode White_Space property. */
  predicate IsSpace(c: char) {
    var n := c as int;
    (0x09 <= n <= 0x0D) || n == 0x20 || n == 0x85 || n == 0xA0 || n == 0x1680
    || (0x2000 <= n <= 0x200A) || n == 0x2028 || n == 0x2029 || n == 0x202F
    || n == 0x205F || n == 0x3000
  }

  predicate AllSpace(s: string) {
    forall i :: 0 <= i < |s| ==> IsSpace(s[i])
  }

  /** Drops the leading white space: the rest of s from its first other character. */
  function TrimLeft(s: string): (r: string)
    ensures |r| <= |s| && r == s[|s| - |r|..]
    ensures AllSpace(s[..|s| - |r|])
    ensures r == [] || !IsSpace(r[0])
  {
    if s != [] && IsSpace(s[0]) then TrimLeft(s[1..]) else s
  }

  /** Drops the trailing white space: s up to and including its last other character. */
  function TrimRight(s: string): (r: string)
    ensures |r| <= |s| && r == s[..|r|]
    ensures AllSpace(s[|r|..])
    ensures r == [] || !IsSpace(r[|r| - 1])
  {
    if s != [] && IsSpace(s[|s| - 1]) then TrimRight(s[..|s| - 1]) else s
  }

  /** strings.TrimSpace: s without its leading and trailing white space. */
  function TrimSpace(s: string): (r: string)
    ensures |r| <= |s|
    ensures r == [] || (!IsSpace(r[0]) && !IsSpace(r[|r| - 1]))
  {
    TrimRight(TrimLeft(s))
  }

  /** What TrimSpace keeps: one slice s[i..j] of s, everything cut off is
      white space, and the slice neither starts nor ends with white space. */
  lemma TrimSpaceSlice(s: string) returns (i: nat, j: nat)
    ensures i <= j <= |s| && TrimSpace(s) == s[i..j]
    ensures AllSpace(s[..i]) && AllSpace(s[j..])
    ensures TrimSpace(s) == [] || (!IsSpace(s[i]) && !IsSpace(s[j - 1]))
  {
    var l := TrimLeft(s);
    var r := TrimRight(l);
    i := |s| - |l|;
    j := i + |r|;
    assert r == s[i..j] by {
      assert r == l[..|r|];
    }
    assert s[j..] == l[|r|..];
    if r != [] {
      assert r[0] == s[i] && r[|r| - 1] == s[j - 1];
    }
  }

  /** A string trims to the empty string exactly when it is all white space. */
  lemma TrimSpaceEmpty(s: string)
    ensures TrimSpace(s) == [] <==> AllSpace(s)
  {
    var i, j := TrimSpaceSlice(s);
    if i < j {
      assert !IsSpace(s[i]);
    }
    if TrimSpace(s) == [] {
      assert i == j;
      forall k | 0 <= k < |s| ensures IsSpace(s[k]) {
        if k < i { assert s[k] == s[..i][k]; } else { assert s[k] == s[j..][k - j]; }
      }
    }
  }

  /** Trimming twice trims nothing more. */
  lemma {:induction false} TrimSpaceIdempotent(s: string)
    ensures TrimSpace(TrimSpace(s)) == TrimSpace(s)
  {
    var t := TrimSpace(s);
    TrimLeftNoop(t);
    TrimRightNoop(t);
  }

  lemma TrimLeftNoop(s: string)
    requires s == [] || !IsSpace(s[0])
    ensures TrimLeft(s) == s
  {
  }

  lemma TrimRightNoop(s: string)
    requires s == [] || !IsSpace(s[|s| - 1])
    ensures TrimRight(s) == s
  {
  }

  /** unicode.ToLower restricted to ASCII: 'A'..'Z' become 'a'..'z'. */
  function LowerChar(c: char): (l: char)
    ensures !('A' <= l <= 'Z')
    ensures l == c || ('A' <= c <= 'Z' && l as int == c as int + 32)
  {
    if 'A' <= c <= 'Z' then (c as int + 32) as char else c
  }

  /** strings.ToLower, character by character. */
  function ToLower(s: string): (r: string)
    ensures |r| == |s|
  {
    seq(|s|, i requires 0 <= i < |s| => LowerChar(s[i]))
  }

  /** Lower-casing is idempotent and leaves no upper-case ASCII letter. */
  lemma ToLowerIdempotent(s: string)
    ensures ToLower(ToLower(s)) == ToLower(s)
    ensures forall i :: 0 <= i < |s| ==> !('A' <= ToLower(s)[i] <= 'Z')
  {
  }

  /** sub occurs in s starting at offset k. */
  predicate OccursAt(s: string, sub: string, k: nat) {
    k + |sub| <= |s| && s[k..k + |sub|] == sub
  }

  /** strings.Contains: sub occurs in s at some offset. */
  function Contains(s: string, sub: string): (r: bool)
    ensures r <==> exists k: nat :: OccursAt(s, sub, k)
  {
    if |sub| > |s| then false
    else if s[..|sub|] == sub then assert OccursAt(s, sub, 0); true
    else
      var rest := Contains(s[1..], sub);
      ContainsShift(s, sub);
      rest
  }

  /** Occurrences in s past its first character are those in s[1..], shifted. */
  lemma ContainsShift(s: string, sub: string)
    requires s != []
    ensures forall k: nat :: OccursAt(s[1..], sub, k) <==> OccursAt(s, sub, k + 1)
    ensures (exists k: nat :: OccursAt(s, sub, k)) <==> OccursAt(s, sub, 0) || exists k: nat :: OccursAt(s[1..], sub, k)
  {
    forall k: nat ensures OccursAt(s[1..], sub, k) <==> OccursAt(s, sub, k + 1) {
      if k + |sub| <= |s[1..]| {
        assert s[1..][k..k + |sub|] == s[k + 1..k + 1 + |sub|];
      }
    }
    if k: nat :| OccursAt(s, sub, k) {
      if k > 0 {
        assert OccursAt(s[1..], sub, k - 1);
      }
    }
  }
}
