/** The ID-submission helpers of the verification system: trimming the entered
    student ID the way Python's `str.strip()` does, and deriving the path of the
    registered reference photo the way POSIX `os.path.join` does. */
module Ids {

  /** The directory that holds one reference photo per registered student ID. */
  const RegistrationFolder: string := "registered_users"

  /** The file extension every reference photo carries. */
  const PhotoExtension: string := ".jpg"

  /** Python's `str.isspace` on one character: the code points of Unicode
      category Zs or of bidirectional class WS, B or S. */
  predicate IsSpace(c: char) {
    var n := c as int;
    || 0x09 <= n <= 0x0D
    || 0x1C <= n <= 0x20
    || n == 0x85 || n == 0xA0 || n == 0x1680
    || 0x2000 <= n <= 0x200A
    || n == 0x2028 || n == 0x2029 || n == 0x202F || n == 0x205F || n == 0x3000
  }

  predicate AllSpace(s: string) {
    forall k :: 0 <= k < |s| ==> IsSpace(s[k])
  }

  /** `s` is empty, or both starts and ends with something other than whitespace. */
  predicate Tight(s: string) {
    s == [] || (!IsSpace(s[0]) && !IsSpace(s[|s| - 1]))
  }

  /** The scan from the front of `str.strip()`: the first position at or
      after `i` that does not hold whitespace, or `|s|`. */
  function SkipLeading(s: string, i: nat): (r: nat)
    requires i <= |s|
    ensures i <= r <= |s|
    ensures forall k :: i <= k < r ==> IsSpace(s[k])
    ensures r == |s| || !IsSpace(s[r])
    decreases |s| - i
  {
    if i < |s| && IsSpace(s[i]) then SkipLeading(s, i + 1) else i
  }

  /** The scan from the back of `str.strip()`, which never passes `lo`: the
      end of the text once the whitespace before position `j` is dropped. */
  function SkipTrailing(s: string, j: nat, lo: nat): (r: nat)
    requires lo <= j <= |s|
    ensures lo <= r <= j
    ensures forall k :: r <= k < j ==> IsSpace(s[k])
    ensures r == lo || !IsSpace(s[r - 1])
    decreases j
  {
    if j > lo && IsSpace(s[j - 1]) then SkipTrailing(s, j - 1, lo) else j
  }

  /** `str.strip()`: the entered ID with surrounding whitespace removed. It is
      empty exactly when the entry was nothing but whitespace. */
  function Strip(s: string): (r: string)
    ensures |r| <= |s|
    ensures r == [] <==> AllSpace(s)
    ensures Tight(r)
  {
    var i := SkipLeading(s, 0);
    var j := SkipTrailing(s, |s|, i);
    assert AllSpace(s) ==> i == |s|;
    assert j == i ==> AllSpace(s) by {
      if j == i {
        assert forall k :: 0 <= k < |s| ==> (k < i || i <= k) && IsSpace(s[k]);
      }
    }
    s[i..j]
  }

  /** A front scan that meets only whitespace up to `n`, and then something
      else or the end, stops at `n`. */
  lemma {:induction false} SkipLeadingStops(s: string, i: nat, n: nat)
    requires i <= n <= |s|
    requires forall k :: i <= k < n ==> IsSpace(s[k])
    requires n == |s| || !IsSpace(s[n])
    ensures SkipLeading(s, i) == n
    decreases n - i
  {
    if i < n {
      SkipLeadingStops(s, i + 1, n);
    }
  }

  /** A back scan that meets only whitespace down to `n`, and then something
      else or its bound, stops at `n`. */
  lemma {:induction false} SkipTrailingStops(s: string, j: nat, lo: nat, n: nat)
    requires lo <= n <= j <= |s|
    requires forall k :: n <= k < j ==> IsSpace(s[k])
    requires n == lo || !IsSpace(s[n - 1])
    ensures SkipTrailing(s, j, lo) == n
    decreases j
  {
    if n < j {
      SkipTrailingStops(s, j - 1, lo, n);
    }
  }

  /** `Strip` is the one decomposition of the entry into whitespace, a tight
      middle and whitespace: whatever way the entry is split like that, the
      middle is what `Strip` returns. */
  lemma StripUnique(a: string, m: string, b: string)
    requires AllSpace(a) && AllSpace(b) && Tight(m)
    ensures Strip(a + m + b) == m
  {
    var s := a + m + b;
    if m == [] {
      assert AllSpace(s) by {
        forall k | 0 <= k < |s| ensures IsSpace(s[k]) {
          if k >= |a| { assert s[k] == b[k - |a|]; }
        }
      }
    } else {
      var i, j := |a|, |a| + |m|;
      assert s[i] == m[0] && s[j - 1] == m[|m| - 1];
      assert forall k :: 0 <= k < i ==> s[k] == a[k];
      assert forall k :: j <= k < |s| ==> s[k] == b[k - j];
      SkipLeadingStops(s, 0, i);
      SkipTrailingStops(s, |s|, i, j);
      assert s[i..j] == m;
    }
  }

  /** The entry is whitespace, then `Strip`'s result, then whitespace: the
      decomposition `StripUnique` speaks of exists. */
  lemma StripDecomposes(s: string)
    ensures var i := SkipLeading(s, 0);
      && i + |Strip(s)| <= |s|
      && s == s[..i] + Strip(s) + s[i + |Strip(s)|..]
      && AllSpace(s[..i]) && AllSpace(s[i + |Strip(s)|..])
  {
    var i := SkipLeading(s, 0);
    var j := SkipTrailing(s, |s|, i);
    assert Strip(s) == s[i..j];
    Split3(s, i, j);
    SpaceRun(s, 0, i);
    SpaceRun(s, j, |s|);
  }

  lemma Split3(s: string, i: nat, j: nat)
    requires i <= j <= |s|
    ensures s == s[..i] + s[i..j] + s[j..]
  {
    assert s == s[..i] + s[i..];
    assert s[i..] == s[i..j] + s[j..];
  }

  lemma SpaceRun(s: string, lo: nat, hi: nat)
    requires lo <= hi <= |s|
    requires forall k :: lo <= k < hi ==> IsSpace(s[k])
    ensures AllSpace(s[lo..hi])
  {
  }

  /** Stripping an already stripped ID changes nothing. */
  lemma StripIdempotent(s: string)
    ensures Strip(Strip(s)) == Strip(s)
  {
    var m := Strip(s);
    assert [] + m + [] == m;
    StripUnique([], m, []);
  }

  /** `os.path.isabs` on POSIX: the name begins with a slash. */
  predicate IsAbsolute(p: string) {
    |p| > 0 && p[0] == '/'
  }

  /** The path names a file directly under the registration folder prefix. */
  predicate InFolder(p: string) {
    |p| > |RegistrationFolder| && p[..|RegistrationFolder| + 1] == RegistrationFolder + "/"
  }

  predicate EndsWith(p: string, suffix: string) {
    |suffix| <= |p| && p[|p| - |suffix|..] == suffix
  }

  /** `os.path.join(RegistrationFolder, id + ".jpg")` under POSIX rules: the
      second component replaces the first when it is absolute; otherwise a
      single slash joins them (the folder name does not end in one). */
  function ReferencePath(id: string): (p: string)
    ensures EndsWith(p, id + PhotoExtension)
    ensures InFolder(p) <==> !IsAbsolute(id)
    ensures |p| == |id| + |PhotoExtension| + (if IsAbsolute(id) then 0 else |RegistrationFolder| + 1)
  {
    var name := id + PhotoExtension;
    if name[0] == '/' then name else RegistrationFolder + "/" + name
  }

  /** Different IDs never share a reference photo. */
  lemma ReferencePathInjective(a: string, b: string)
    requires ReferencePath(a) == ReferencePath(b)
    ensures a == b
  {
    var p := ReferencePath(a);
    var n := |p| - |PhotoExtension|;
    if IsAbsolute(a) {
      assert IsAbsolute(b);
      assert p == a + PhotoExtension == b + PhotoExtension;
      assert a == p[..n] == b;
    } else {
      assert !IsAbsolute(b);
      var f := |RegistrationFolder| + 1;
      assert p == RegistrationFolder + "/" + a + PhotoExtension;
      assert p == RegistrationFolder + "/" + b + PhotoExtension;
      assert a == p[f..n] == b;
    }
  }
}
