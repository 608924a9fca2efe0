/**
 * The JavaScript string operations the server's handlers rely on:
 * `String.prototype.trim`, `indexOf`/`includes` with a one-character
 * argument, `split` on a one-character separator and `Array.prototype.join`.
 * Strings are sequences of code points; no character outside the Basic
 * Multilingual Plane is whitespace, so the UTF-16 view makes no difference here.
 */
module JsStrings {
  import opened Wrappers

  /** The code points ECMAScript counts as WhiteSpace or LineTerminator: what `trim` removes. */
  predicate IsJsWhitespace(c: char) {
    var n := c as int;
    n == 0x09 || n == 0x0A || n == 0x0B || n == 0x0C || n == 0x0D || n == 0x20
    || n == 0xA0 || n == 0x1680 || (0x2000 <= n <= 0x200A) || n == 0x2028
    || n == 0x2029 || n == 0x202F || n == 0x205F || n == 0x3000 || n == 0xFEFF
  }

  /** Every character of `s` in positions `lo` to `hi - 1` is whitespace. */
  predicate WhitespaceBetween(s: string, lo: int, hi: int)
    requires 0 <= lo && hi <= |s|
  {
    forall k :: lo <= k < hi ==> IsJsWhitespace(s[k])
  }

  /** No whitespace at either end (vacuously true of the empty string). */
  predicate Trimmed(s: string) {
    s == [] || (!IsJsWhitespace(s[0]) && !IsJsWhitespace(s[|s| - 1]))
  }

  /** The first position at or after `i` that does not hold whitespace (or `|s|`). */
  function SkipLeading(s: string, i: nat): (n: nat)
    requires i <= |s|
    ensures i <= n <= |s|
    ensures WhitespaceBetween(s, i, n)
    ensures n < |s| ==> !IsJsWhitespace(s[n])
    decreases |s| - i
  {
    if i < |s| && IsJsWhitespace(s[i]) then SkipLeading(s, i + 1) else i
  }

  /** The position just after the last non-whitespace character in `lo` to `j - 1` (or `lo`). */
  function SkipTrailing(s: string, lo: nat, j: nat): (n: nat)
    requires lo <= j <= |s|
    ensures lo <= n <= j
    ensures WhitespaceBetween(s, n, j)
    ensures lo < n ==> !IsJsWhitespace(s[n - 1])
    decreases j
  {
    if lo < j && IsJsWhitespace(s[j - 1]) then SkipTrailing(s, lo, j - 1) else j
  }

  /** Where the text `trim` keeps begins. */
  function TrimBegin(s: string): nat {
    SkipLeading(s, 0)
  }

  /** Where the text `trim` keeps ends. */
  function TrimStop(s: string): (n: nat)
    ensures TrimBegin(s) <= n <= |s|
  {
    SkipTrailing(s, TrimBegin(s), |s|)
  }

  /**
   * `String.prototype.trim`: the text between the leading and the trailing
   * whitespace runs, with no whitespace at either end.
   */
  function Trim(s: string): (r: string)
    ensures Trimmed(r)
    ensures r == s[TrimBegin(s)..TrimStop(s)]
    ensures WhitespaceBetween(s, 0, TrimBegin(s)) && WhitespaceBetween(s, TrimStop(s), |s|)
  {
    s[TrimBegin(s)..TrimStop(s)]
  }

  /**
   * `Trim` returns exactly the core of a string: whatever whitespace surrounds
   * a trimmed core, trimming gives the core back.
   */
  lemma TrimExact(lead: string, core: string, trail: string)
    requires WhitespaceBetween(lead, 0, |lead|) && WhitespaceBetween(trail, 0, |trail|)
    requires Trimmed(core)
    ensures Trim(lead + core + trail) == core
  {
    var s := lead + core + trail;
    var a, b := |lead|, |lead| + |core|;
    forall k | 0 <= k < |s| ensures (k < a || b <= k) ==> IsJsWhitespace(s[k]) {
      if k < a { assert s[k] == lead[k]; }
      else if b <= k { assert s[k] == trail[k - b]; }
    }
    if core == [] {
      SkipLeadingReaches(s, 0, |s|);
      assert s[|s|..|s|] == core;
    } else {
      assert s[a] == core[0] && s[b - 1] == core[|core| - 1];
      SkipLeadingReaches(s, 0, a);
      SkipTrailingReaches(s, a, |s|, b);
      assert s[a..b] == core;
    }
  }

  lemma {:induction false} SkipLeadingReaches(s: string, i: nat, n: nat)
    requires i <= n <= |s| && WhitespaceBetween(s, i, n)
    requires n < |s| ==> !IsJsWhitespace(s[n])
    ensures SkipLeading(s, i) == n
    decreases n - i
  {
    if i < n {
      SkipLeadingReaches(s, i + 1, n);
    }
  }

  lemma {:induction false} SkipTrailingReaches(s: string, lo: nat, j: nat, n: nat)
    requires lo < n <= j <= |s| && WhitespaceBetween(s, n, j)
    requires !IsJsWhitespace(s[n - 1])
    ensures SkipTrailing(s, lo, j) == n
    decreases j
  {
    if n < j {
      SkipTrailingReaches(s, lo, j - 1, n);
    }
  }

  /** Trimming twice is trimming once. */
  lemma TrimIdempotent(s: string)
    ensures Trim(Trim(s)) == Trim(s)
  {
    var r := Trim(s);
    TrimExact([], r, []);
    assert [] + r + [] == r;
  }

  /** The first position at or after `i` holding `c`, if any. */
  function IndexFrom(s: string, c: char, i: nat): (r: Option<nat>)
    requires i <= |s|
    ensures r.None? <==> forall k :: i <= k < |s| ==> s[k] != c
    ensures r.Some? ==> i <= r.value < |s| && s[r.value] == c
    ensures r.Some? ==> forall k :: i <= k < r.value ==> s[k] != c
    decreases |s| - i
  {
    if i == |s| then None
    else if s[i] == c then Some(i)
    else IndexFrom(s, c, i + 1)
  }

  /** `s.indexOf(c)`, with -1 as `None`; `s.includes(c)` is `IndexOf(s, c).Some?`. */
  function IndexOf(s: string, c: char): (r: Option<nat>)
    ensures r.None? <==> c !in s
    ensures r.Some? ==> r.value < |s| && s[r.value] == c && c !in s[..r.value]
  {
    var r := IndexFrom(s, c, 0);
    assert r.Some? ==> forall k :: 0 <= k < r.value ==> s[..r.value][k] == s[k];
    assert r.None? ==> forall k :: 0 <= k < |s| ==> s[k] != c;
    r
  }

  /** `s.split(sep)` for a one-character separator: the maximal separator-free pieces, in order. */
  function Split(s: string, sep: char): (parts: seq<string>)
    ensures |parts| >= 1
    ensures forall k :: 0 <= k < |parts| ==> sep !in parts[k]
    decreases |s|
  {
    match IndexOf(s, sep)
    case None => [s]
    case Some(i) => [s[..i]] + Split(s[i + 1..], sep)
  }

  /** `parts.join(sep)` for a one-character separator; an empty array joins to "". */
  function Join(parts: seq<string>, sep: char): string {
    if parts == [] then []
    else if |parts| == 1 then parts[0]
    else parts[0] + [sep] + Join(parts[1..], sep)
  }

  /** Splitting and joining on the same separator gives the string back. */
  lemma {:induction false} JoinSplit(s: string, sep: char)
    ensures Join(Split(s, sep), sep) == s
    decreases |s|
  {
    var r := IndexOf(s, sep);
    if r.Some? {
      var i := r.value;
      var tail := s[i + 1..];
      var rest := Split(tail, sep);
      assert Split(s, sep) == [s[..i]] + rest;
      JoinSplit(tail, sep);
      JoinCons(s[..i], rest, sep);
      SplitAround(s, i);
    }
  }

  lemma JoinCons(first: string, rest: seq<string>, sep: char)
    requires rest != []
    ensures Join([first] + rest, sep) == first + [sep] + Join(rest, sep)
  {
    assert ([first] + rest)[1..] == rest;
  }

  lemma SplitAround(s: string, i: nat)
    requires i < |s|
    ensures s == s[..i] + [s[i]] + s[i + 1..]
  {
  }

  /**
   * The first piece of a split is the text before the first separator, and the
   * remaining pieces re-joined are the text after it.
   */
  lemma SplitAtFirst(s: string, sep: char)
    requires sep in s
    ensures var i := IndexOf(s, sep).value;
      && Split(s, sep)[0] == s[..i]
      && Join(Split(s, sep)[1..], sep) == s[i + 1..]
  {
    var i := IndexOf(s, sep).value;
    var rest := Split(s[i + 1..], sep);
    assert Split(s, sep) == [s[..i]] + rest;
    assert Split(s, sep)[1..] == rest;
    JoinSplit(s[i + 1..], sep);
  }

  /** `IndexOf` finds `c` at `i` when `c` does not occur before `i`. */
  lemma IndexOfAt(s: string, c: char, i: nat)
    requires i <= |s| && c !in s[..i] && (i < |s| ==> s[i] == c)
    ensures i < |s| ==> IndexOf(s, c) == Some(i)
    ensures i == |s| ==> IndexOf(s, c) == None
  {
    if i == |s| {
      assert s[..i] == s;
    } else {
      assert s[i] in s;
      var r := IndexOf(s, c).value;
      assert forall k :: 0 <= k < i ==> s[k] != c by {
        forall k | 0 <= k < i ensures s[k] != c {
          assert s[..i][k] == s[k];
        }
      }
      assert forall k :: 0 <= k < r ==> s[k] != c by {
        forall k | 0 <= k < r ensures s[k] != c {
          assert s[..r][k] == s[k];
        }
      }
    }
  }
}
