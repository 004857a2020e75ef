/** The string built-ins the core relies on: `trim`, `toLowerCase`, `includes`,
    `split(' ')` / `join`, `slice`, and `Number.prototype.toString(36)`. */
module Text {

  /** The characters `String.prototype.trim` removes: ECMAScript WhiteSpace and LineTerminator. */
  predicate IsSpace(c: char) {
    c == '\t' || c == '\n' || c == '\U{000B}' || c == '\U{000C}' || c == '\r' || c == ' ' ||
    c == '\U{00A0}' || c == '\U{1680}' || ('\U{2000}' <= c <= '\U{200A}') ||
    c == '\U{2028}' || c == '\U{2029}' || c == '\U{202F}' || c == '\U{205F}' ||
    c == '\U{3000}' || c == '\U{FEFF}'
  }

  /** `toLowerCase` on one character, for the ASCII letters. */
  function LowerChar(c: char): char {
    if 'A' <= c <= 'Z' then (c as int + 32) as char else c
  }

  /** `a` and `b` are the same character, or an ASCII capital and its small letter. */
  predicate SameCaseChar(a: char, b: char) {
    a == b ||
    ('A' <= a <= 'Z' && b as int == a as int + 32) ||
    ('A' <= b <= 'Z' && a as int == b as int + 32)
  }

  /** `a` and `b` differ at most in the case of their ASCII letters. */
  predicate SameUpToCase(a: string, b: string) {
    |a| == |b| && forall i :: 0 <= i < |a| ==> SameCaseChar(a[i], b[i])
  }

  /** `s.toLowerCase()`, for the ASCII letters: the result differs from `s` only in the
      case of letters, and it has no capital left. */
  function Lower(s: string): (r: string)
    ensures SameUpToCase(s, r)
    ensures forall i :: 0 <= i < |r| ==> !('A' <= r[i] <= 'Z')
  {
    seq(|s|, i requires 0 <= i < |s| => LowerChar(s[i]))
  }

  lemma LowerCharIgnoresCase(a: char, b: char)
    requires SameCaseChar(a, b)
    ensures LowerChar(a) == LowerChar(b)
  {
    if a != b {
      if 'A' <= a <= 'Z' {
        assert LowerChar(a) as int == a as int + 32;
      } else {
        assert LowerChar(b) as int == b as int + 32;
      }
    }
  }

  /** Strings that differ only in the case of letters lower-case to the same string. */
  lemma LowerIgnoresCase(a: string, b: string)
    requires SameUpToCase(a, b)
    ensures Lower(a) == Lower(b)
  {
    forall i | 0 <= i < |a|
      ensures Lower(a)[i] == Lower(b)[i]
    {
      LowerCharIgnoresCase(a[i], b[i]);
    }
  }

  /** Strips leading whitespace: the result is a suffix of `s` that does not start with
      whitespace, and everything removed was whitespace. */
  function TrimStart(s: string): (r: string)
    ensures |r| <= |s| && r == s[|s| - |r|..]
    ensures forall i :: 0 <= i < |s| - |r| ==> IsSpace(s[i])
    ensures r != [] ==> !IsSpace(r[0])
  {
    if s != [] && IsSpace(s[0]) then TrimStart(s[1..]) else s
  }

  /** Strips trailing whitespace, symmetrically to TrimStart. */
  function TrimEnd(s: string): (r: string)
    ensures |r| <= |s| && r == s[..|r|]
    ensures forall i :: |r| <= i < |s| ==> IsSpace(s[i])
    ensures r != [] ==> !IsSpace(r[|r| - 1])
  {
    if s != [] && IsSpace(s[|s| - 1]) then TrimEnd(s[..|s| - 1]) else s
  }

  lemma LowerCharIdempotent(c: char)
    ensures LowerChar(LowerChar(c)) == LowerChar(c)
  {
  }

  lemma LowerIdempotent(s: string)
    ensures Lower(Lower(s)) == Lower(s)
  {
    forall i | 0 <= i < |s|
      ensures Lower(Lower(s))[i] == Lower(s)[i]
    {
      LowerCharIdempotent(s[i]);
    }
  }

  lemma LowerKeepsSpaces(c: char)
    ensures IsSpace(LowerChar(c)) == IsSpace(c)
  {
  }

  lemma {:induction false} TrimStartLower(s: string)
    ensures TrimStart(Lower(s)) == Lower(TrimStart(s))
  {
    if s != [] {
      LowerKeepsSpaces(s[0]);
      assert Lower(s)[1..] == Lower(s[1..]);
      TrimStartLower(s[1..]);
    }
  }

  lemma {:induction false} TrimEndLower(s: string)
    ensures TrimEnd(Lower(s)) == Lower(TrimEnd(s))
  {
    if s != [] {
      LowerKeepsSpaces(s[|s| - 1]);
      assert Lower(s)[..|s| - 1] == Lower(s[..|s| - 1]);
      TrimEndLower(s[..|s| - 1]);
    }
  }

  /** Lower-casing first or trimming first makes no difference, and lower-casing twice
      is lower-casing once: so `trim().toLowerCase()` ignores the case of its input. */
  lemma TrimLowerIgnoresCase(s: string)
    ensures Lower(Trim(Lower(s))) == Lower(Trim(s))
  {
    TrimStartLower(s);
    TrimEndLower(TrimStart(s));
    var t := Trim(s);
    assert t == TrimEnd(TrimStart(s));
    assert Trim(Lower(s)) == TrimEnd(TrimStart(Lower(s))) == Lower(t);
    LowerIdempotent(t);
  }

  /** `q` occurs in `s` starting at position `k`. */
  ghost predicate OccursAt(s: string, q: string, k: nat) {
    k + |q| <= |s| && s[k..k + |q|] == q
  }

  /** `r` is what remains of `s` after cutting `k` whitespace characters off its start
      and only whitespace off its end. */
  ghost predicate TrimmedAt(s: string, r: string, k: nat) {
    OccursAt(s, r, k) &&
    (forall i :: 0 <= i < k ==> IsSpace(s[i])) &&
    (forall i :: k + |r| <= i < |s| ==> IsSpace(s[i]))
  }

  /** `s.trim()`: the infix of `s` left after removing whitespace at both ends; it neither
      starts nor ends with whitespace, and it is empty exactly when `s` is all whitespace. */
  function Trim(s: string): (r: string)
    ensures exists k: nat :: TrimmedAt(s, r, k)
    ensures r != [] ==> !IsSpace(r[0]) && !IsSpace(r[|r| - 1])
    ensures r == [] <==> forall i :: 0 <= i < |s| ==> IsSpace(s[i])
  {
    var t := TrimStart(s);
    var r := TrimEnd(t);
    assert TrimmedAt(s, r, |s| - |t|);
    r
  }

  lemma OccursShift(s: string, q: string)
    requires s != []
    ensures forall k: nat :: OccursAt(s[1..], q, k) <==> OccursAt(s, q, k + 1)
  {
    forall k: nat
      ensures OccursAt(s[1..], q, k) <==> OccursAt(s, q, k + 1)
    {
      if k + |q| <= |s[1..]| {
        assert s[1..][k..k + |q|] == s[k + 1..k + 1 + |q|];
      }
    }
  }

  /** `s.includes(q)`: `q` occurs somewhere in `s` (the empty string occurs everywhere). */
  function Includes(s: string, q: string): (r: bool)
    ensures r <==> exists k: nat :: OccursAt(s, q, k)
    decreases |s|
  {
    if |q| > |s| then false
    else if s[..|q|] == q then assert OccursAt(s, q, 0); true
    else
      assert !OccursAt(s, q, 0);
      OccursShift(s, q);
      assert forall k: nat :: OccursAt(s, q, k) ==> k > 0 && OccursAt(s[1..], q, k - 1);
      Includes(s[1..], q)
  }

  /** `s.slice(0, n)`: the first `n` elements, or all of them when there are fewer. */
  function Take<T>(s: seq<T>, n: nat): (r: seq<T>)
    ensures r <= s
    ensures |r| == if |s| < n then |s| else n
  {
    if |s| <= n then s else s[..n]
  }

  /** `s.slice(-n)`: the last `n` elements, or all of them when there are fewer. */
  function TakeLast<T>(s: seq<T>, n: nat): (r: seq<T>)
    ensures |r| == if |s| < n then |s| else n
    ensures r == s[|s| - |r|..]
  {
    if |s| <= n then s else s[|s| - n..]
  }

  // ---------------------------------------------------------------------------
  // split(' ') and join(' ')

  /** `s.split(' ')`: the pieces between single spaces. Adjacent, leading or trailing
      spaces yield empty pieces; the empty string yields one empty piece. */
  function Split(s: string): (r: seq<string>)
    ensures |r| >= 1
  {
    if s == [] then [[]]
    else
      var rest := Split(s[1..]);
      if s[0] == ' ' then [[]] + rest else [[s[0]] + rest[0]] + rest[1..]
  }

  /** `parts.join(' ')`. */
  function Join(parts: seq<string>): string {
    if parts == [] then []
    else if |parts| == 1 then parts[0]
    else parts[0] + " " + Join(parts[1..])
  }

  ghost predicate NoSpaces(parts: seq<string>) {
    forall i :: 0 <= i < |parts| ==> ' ' !in parts[i]
  }

  /** Splitting and joining again gives back the string. */
  lemma {:induction false} SplitJoin(s: string)
    ensures Join(Split(s)) == s
  {
    if s != [] {
      var rest := Split(s[1..]);
      SplitJoin(s[1..]);
      if s[0] == ' ' {
        SplitJoinAtSpace(s, rest);
      } else {
        SplitJoinAtChar(s, rest);
      }
    }
  }

  lemma SplitJoinAtSpace(s: string, rest: seq<string>)
    requires s != [] && s[0] == ' ' && rest == Split(s[1..]) && Join(rest) == s[1..]
    ensures Join(Split(s)) == s
  {
    var r := Split(s);
    assert r == [[]] + rest;
    assert r[1..] == rest;
    assert Join(r) == [] + " " + Join(rest);
    assert s == " " + s[1..];
  }

  lemma SplitJoinAtChar(s: string, rest: seq<string>)
    requires s != [] && s[0] != ' ' && rest == Split(s[1..]) && Join(rest) == s[1..]
    ensures Join(Split(s)) == s
  {
    var first := [s[0]] + rest[0];
    var r := Split(s);
    assert r == [first] + rest[1..];
    assert s == [s[0]] + s[1..];
    if |rest| == 1 {
      assert Join(r) == first;
    } else {
      assert r[1..] == rest[1..];
      assert Join(r) == first + " " + Join(rest[1..]);
      assert Join(rest) == rest[0] + " " + Join(rest[1..]);
    }
  }

  /** No piece of a split contains the separator. */
  lemma {:induction false} SplitNoSpaces(s: string)
    ensures NoSpaces(Split(s))
  {
    if s != [] {
      var rest := Split(s[1..]);
      SplitNoSpaces(s[1..]);
      var r := Split(s);
      if s[0] == ' ' {
        assert r == [[]] + rest;
      } else {
        assert r == [[s[0]] + rest[0]] + rest[1..];
        assert ' ' !in [s[0]] + rest[0];
      }
    }
  }

  /** Splitting a space-free word followed by any text: the word becomes part of the first piece. */
  lemma {:induction false} SplitAfterWord(p: string, t: string)
    requires ' ' !in p
    ensures Split(p + t) == [p + Split(t)[0]] + Split(t)[1..]
  {
    if p == [] {
      assert p + t == t;
      assert p + Split(t)[0] == Split(t)[0];
      assert Split(t) == [Split(t)[0]] + Split(t)[1..];
    } else {
      SplitAfterWord(p[1..], t);
      assert (p + t)[1..] == p[1..] + t;
      assert (p + t)[0] == p[0];
      assert [p[0]] + (p[1..] + Split(t)[0]) == p + Split(t)[0];
    }
  }

  /** Joining space-free pieces and splitting again gives back the pieces. */
  lemma {:induction false} JoinSplit(parts: seq<string>)
    requires |parts| >= 1 && NoSpaces(parts)
    ensures Split(Join(parts)) == parts
  {
    if |parts| == 1 {
      SplitAfterWord(parts[0], []);
      assert parts[0] + [] == parts[0];
    } else {
      var j := Join(parts[1..]);
      JoinSplit(parts[1..]);
      assert Join(parts) == parts[0] + (" " + j);
      SplitAfterWord(parts[0], " " + j);
      assert (" " + j)[1..] == j;
      assert Split(" " + j) == [[]] + parts[1..];
      assert parts[0] + [] == parts[0];
      assert parts == [parts[0]] + parts[1..];
    }
  }

  // ---------------------------------------------------------------------------
  // Initials

  /** `parts.map(n => n[0]).join('')`: the first character of every piece; an empty
      piece gives `undefined`, which `join` renders as nothing. */
  function Heads(parts: seq<string>): string {
    if parts == [] then []
    else (if parts[0] == [] then [] else [parts[0][0]]) + Heads(parts[1..])
  }

  /** A direct scan of `s`: every non-space character that starts a word, that is, comes
      first or right after a space (`atStart` says whether the previous character was one). */
  function WordStarts(s: string, atStart: bool): (r: string)
    ensures ' ' !in r
  {
    if s == [] then []
    else (if atStart && s[0] != ' ' then [s[0]] else []) + WordStarts(s[1..], s[0] == ' ')
  }

  lemma {:induction false} HeadsOfSplit(s: string)
    ensures Heads(Split(s)) == WordStarts(s, true)
    ensures Heads(Split(s)[1..]) == WordStarts(s, false)
  {
    if s != [] {
      var rest := Split(s[1..]);
      HeadsOfSplit(s[1..]);
      if s[0] == ' ' {
        assert Split(s) == [[]] + rest;
        assert Split(s)[1..] == rest;
      } else {
        assert Split(s) == [[s[0]] + rest[0]] + rest[1..];
        assert Split(s)[1..] == rest[1..];
      }
    }
  }

  /** `name.split(' ').map(n => n[0]).join('').slice(0, 2)`: at most two characters, namely
      the first two word-initial characters of `name` (fewer if it has fewer words). */
  function Initials(name: string): (r: string)
    ensures |r| <= 2
    ensures r <= WordStarts(name, true)
    ensures |r| == 2 || r == WordStarts(name, true)
  {
    HeadsOfSplit(name);
    Take(Heads(Split(name)), 2)
  }

  /** The scan of a concatenation is the scan of each part, the second one started in the
      state the first left behind. */
  lemma {:induction false} WordStartsConcat(a: string, b: string, atStart: bool)
    ensures WordStarts(a + b, atStart) ==
              WordStarts(a, atStart) + WordStarts(b, if a == [] then atStart else a[|a| - 1] == ' ')
  {
    if a == [] {
      assert a + b == b;
    } else {
      assert (a + b)[1..] == a[1..] + b;
      WordStartsConcat(a[1..], b, a[0] == ' ');
    }
  }

  /** Repeated spaces give empty words, and empty words contribute no initial. */
  lemma RepeatedSpaceIgnored(p: string, t: string)
    ensures Initials(p + "  " + t) == Initials(p + " " + t)
  {
    WordStartsConcat(p + "  ", t, true);
    WordStartsConcat(p, "  ", true);
    WordStartsConcat(p + " ", t, true);
    WordStartsConcat(p, " ", true);
    assert WordStarts("  ", false) == [] && WordStarts("  ", true) == [];
    assert WordStarts(" ", false) == [] && WordStarts(" ", true) == [];
  }

  // ---------------------------------------------------------------------------
  // Number.prototype.toString(36)

  predicate IsDigit36(c: char) {
    '0' <= c <= '9' || 'a' <= c <= 'z'
  }

  function DigitValue(c: char): (v: nat)
    requires IsDigit36(c)
    ensures v < 36
  {
    if c <= '9' then c as int - '0' as int else c as int - 'a' as int + 10
  }

  function Digit36(d: nat): (c: char)
    requires d < 36
    ensures IsDigit36(c) && DigitValue(c) == d
  {
    if d < 10 then ('0' as int + d) as char else ('a' as int + d - 10) as char
  }

  /** `n.toString(36)` for a natural number: its base-36 numeral, lower-case, never empty,
      with no leading zero except for zero itself. */
  function Base36(n: nat): (r: string)
    ensures |r| >= 1
    ensures forall i :: 0 <= i < |r| ==> IsDigit36(r[i])
    ensures r[0] == '0' ==> n == 0
  {
    if n < 36 then [Digit36(n)] else Base36(n / 36) + [Digit36(n % 36)]
  }

  /** The value of a base-36 numeral. */
  function ParseBase36(s: string): nat
    requires forall i :: 0 <= i < |s| ==> IsDigit36(s[i])
  {
    if s == [] then 0 else ParseBase36(s[..|s| - 1]) * 36 + DigitValue(s[|s| - 1])
  }

  lemma {:induction false} Base36RoundTrip(n: nat)
    ensures ParseBase36(Base36(n)) == n
  {
    if n < 36 {
      assert Base36(n)[..0] == [];
    } else {
      var r := Base36(n);
      Base36RoundTrip(n / 36);
      assert r[..|r| - 1] == Base36(n / 36);
    }
  }
}
