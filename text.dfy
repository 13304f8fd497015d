/** The string operations of Python that the application relies on:
    `sep.join(parts)`, `s.split(c)`, `s.strip()`, `s.lower()` and the decimal
    rendering of an integer in an f-string. */
module Text {

  function Last<T>(s: seq<T>): T
    requires |s| > 0
  {
    s[|s| - 1]
  }

  // ---------------------------------------------------------------------
  // Joining and splitting
  // ---------------------------------------------------------------------

  /** Python's `sep.join(parts)`: the parts in order, one separator between
      each two neighbours, none before the first or after the last. */
  function Join(sep: string, parts: seq<string>): string
  {
    if |parts| == 0 then ""
    else if |parts| == 1 then parts[0]
    else parts[0] + sep + Join(sep, parts[1..])
  }

  /** Python's `s.split(c)` for a one-character separator: the maximal runs
      between separators, so that joining them back with `c` gives `s`. */
  function Split(c: char, s: string): (r: seq<string>)
    ensures |r| >= 1
    ensures forall k :: 0 <= k < |r| ==> c !in r[k]
    ensures Join([c], r) == s
  {
    if s == [] then [""]
    else
      var rest := Split(c, s[1..]);
      if s[0] == c then
        assert ([""] + rest)[1..] == rest;
        [""] + rest
      else
        var r := [[s[0]] + rest[0]] + rest[1..];
        assert |rest| > 1 ==> r[1..] == rest[1..];
        r
  }

  /** Appending one part to a non-empty list appends one separator and that part. */
  lemma {:induction false} JoinSnoc(sep: string, parts: seq<string>, p: string)
    requires |parts| > 0
    ensures Join(sep, parts + [p]) == Join(sep, parts) + sep + p
  {
    if |parts| == 1 {
      assert (parts + [p])[1..] == [p];
    } else {
      assert (parts + [p])[1..] == parts[1..] + [p];
      JoinSnoc(sep, parts[1..], p);
    }
  }

  /** Sum of the lengths of the parts. */
  function TotalLength(parts: seq<string>): nat
  {
    if parts == [] then 0 else |parts[0]| + TotalLength(parts[1..])
  }

  /** Where part k starts in `Join(sep, parts)`: the lengths of the parts
      before it, each followed by a separator. */
  function PartOffset(sep: string, parts: seq<string>, k: nat): nat
    requires k <= |parts|
  {
    if k == 0 then 0 else |parts[0]| + |sep| + PartOffset(sep, parts[1..], k - 1)
  }

  /** Part k of the list occupies its own span of the joined text, and exactly
      one separator follows it unless it is the last part. */
  lemma {:induction false} JoinSpans(sep: string, parts: seq<string>, k: nat)
    requires k < |parts|
    ensures PartOffset(sep, parts, k) + |parts[k]| <= |Join(sep, parts)|
    ensures Join(sep, parts)[PartOffset(sep, parts, k)..PartOffset(sep, parts, k) + |parts[k]|] == parts[k]
    ensures k + 1 < |parts| ==>
      PartOffset(sep, parts, k) + |parts[k]| + |sep| <= |Join(sep, parts)| &&
      Join(sep, parts)[PartOffset(sep, parts, k) + |parts[k]|..PartOffset(sep, parts, k) + |parts[k]| + |sep|] == sep
    ensures k + 1 == |parts| ==> PartOffset(sep, parts, k) + |parts[k]| == |Join(sep, parts)|
  {
    if |parts| > 1 {
      var head := parts[0] + sep;
      var tail := Join(sep, parts[1..]);
      assert Join(sep, parts) == head + tail;
      if k == 0 {
        SliceOfConcat([], parts[0] + sep + tail, 0, |parts[0]|);
        SliceOfConcat(parts[0], sep + tail, 0, |sep|);
      } else {
        JoinSpans(sep, parts[1..], k - 1);
        var o := PartOffset(sep, parts[1..], k - 1);
        SliceOfConcat(head, tail, o, o + |parts[k]|);
        if k + 1 < |parts| {
          SliceOfConcat(head, tail, o + |parts[k]|, o + |parts[k]| + |sep|);
        }
      }
    }
  }

  lemma SliceOfConcat(a: string, b: string, x: nat, y: nat)
    requires x <= y <= |b|
    ensures (a + b)[|a| + x..|a| + y] == b[x..y]
  {
  }

  /** The joined text is as long as its parts plus one separator per gap. */
  lemma {:induction false} JoinLength(sep: string, parts: seq<string>)
    requires |parts| > 0
    ensures |Join(sep, parts)| == TotalLength(parts) + (|parts| - 1) * |sep|
  {
    if |parts| > 1 {
      JoinLength(sep, parts[1..]);
    }
  }

  /** A character found in neither the separator nor any part is not in the joined text. */
  lemma {:induction false} JoinAvoids(c: char, sep: string, parts: seq<string>)
    requires c !in sep
    requires forall k :: 0 <= k < |parts| ==> c !in parts[k]
    ensures c !in Join(sep, parts)
  {
    if |parts| > 1 {
      JoinAvoids(c, sep, parts[1..]);
    }
  }

  /** A text without the separator is one piece. */
  lemma {:induction false} SplitWithoutSeparator(c: char, p: string)
    requires c !in p
    ensures Split(c, p) == [p]
  {
    if p != [] {
      SplitWithoutSeparator(c, p[1..]);
      assert [p[0]] + p[1..] == p;
    }
  }

  /** Splitting a text that starts with a separator-free piece and a separator. */
  lemma {:induction false} SplitPrefix(c: char, p: string, s: string)
    requires c !in p
    ensures Split(c, p + [c] + s) == [p] + Split(c, s)
  {
    var t := p + [c] + s;
    if p == [] {
      assert t[0] == c && t[1..] == s;
    } else {
      assert t[0] == p[0] && t[1..] == p[1..] + [c] + s;
      SplitPrefix(c, p[1..], s);
      assert [p[0]] + p[1..] == p;
    }
  }

  /** Splitting undoes joining when no part contains the separator. */
  lemma {:induction false} SplitOfJoin(c: char, parts: seq<string>)
    requires |parts| > 0
    requires forall k :: 0 <= k < |parts| ==> c !in parts[k]
    ensures Split(c, Join([c], parts)) == parts
  {
    if |parts| == 1 {
      SplitWithoutSeparator(c, parts[0]);
    } else {
      SplitOfJoin(c, parts[1..]);
      SplitPrefix(c, parts[0], Join([c], parts[1..]));
      assert [parts[0]] + parts[1..] == parts;
    }
  }

  /** The last piece of `s.split(c)` is the text after the last `c`, or all of
      `s` when it has no `c`. */
  lemma LastPiece(c: char, s: string)
    ensures var l := Last(Split(c, s));
      c !in l &&
      ((c !in s && l == s) || (c in s && |l| < |s| && s == s[..|s| - |l| - 1] + [c] + l))
  {
    var r := Split(c, s);
    var l := Last(r);
    if |r| == 1 {
      assert l == s;
    } else {
      var front := r[..|r| - 1];
      assert r == front + [l];
      JoinSnoc([c], front, l);
      var head := Join([c], front);
      assert s == head + [c] + l;
      assert s[..|s| - |l| - 1] == head;
      assert s[|s| - |l| - 1] == c;
    }
  }

  /** A text is `stem + [c] + tail` with a separator-free tail in one way only. */
  lemma TailAfterLastUnique(c: char, s: string, a: string, b: string)
    requires c !in a && c !in b
    requires |a| < |s| && s[|s| - |a| - 1] == c && s[|s| - |a|..] == a
    requires |b| < |s| && s[|s| - |b| - 1] == c && s[|s| - |b|..] == b
    ensures a == b
  {
  }

  // ---------------------------------------------------------------------
  // Whitespace and stripping
  // ---------------------------------------------------------------------

  /** The characters Python's `str.isspace` accepts: those `str.strip()`
      removes and the regular-expression class `\s` matches. */
  predicate IsSpace(c: char)
  {
    || ('\t' <= c <= '\r')
    || ('\U{1C}' <= c <= ' ')
    || c == '\U{85}' || c == '\U{A0}' || c == '\U{1680}'
    || ('\U{2000}' <= c <= '\U{200A}')
    || c == '\U{2028}' || c == '\U{2029}' || c == '\U{202F}' || c == '\U{205F}'
    || c == '\U{3000}'
  }

  /** Every character of `s` is whitespace (the empty text included). */
  predicate AllSpace(s: string)
  {
    forall k :: 0 <= k < |s| ==> IsSpace(s[k])
  }

  /** How many whitespace characters follow position `i` before the first
      other character or the end. */
  function SpaceRunFrom(s: string, i: nat): (n: nat)
    requires i <= |s|
    ensures i + n <= |s|
    decreases |s| - i
  {
    if i < |s| && IsSpace(s[i]) then 1 + SpaceRunFrom(s, i + 1) else 0
  }

  /** How many whitespace characters precede position `j`, counted
      backwards to the first other character or the start. */
  function SpaceRunBefore(s: string, j: nat): (n: nat)
    requires j <= |s|
    ensures n <= j
  {
    if j > 0 && IsSpace(s[j - 1]) then 1 + SpaceRunBefore(s, j - 1) else 0
  }

  /** The number of leading whitespace characters. */
  function LeadingSpace(s: string): nat
  {
    SpaceRunFrom(s, 0)
  }

  /** Where the trailing whitespace begins. */
  function TrailingStart(s: string): nat
  {
    |s| - SpaceRunBefore(s, |s|)
  }

  /** `s.strip()`: the text between the leading and the trailing whitespace,
      empty when nothing but whitespace is there. */
  function Trim(s: string): string
  {
    var i := LeadingSpace(s);
    var j := TrailingStart(s);
    if i < j then s[i..j] else ""
  }

  lemma {:induction false} SpaceRunFromSpec(s: string, i: nat)
    requires i <= |s|
    ensures forall k :: i <= k < i + SpaceRunFrom(s, i) ==> IsSpace(s[k])
    ensures i + SpaceRunFrom(s, i) < |s| ==> !IsSpace(s[i + SpaceRunFrom(s, i)])
    decreases |s| - i
  {
    if i < |s| && IsSpace(s[i]) {
      SpaceRunFromSpec(s, i + 1);
    }
  }

  lemma {:induction false} SpaceRunBeforeSpec(s: string, j: nat)
    requires j <= |s|
    ensures forall k :: j - SpaceRunBefore(s, j) <= k < j ==> IsSpace(s[k])
    ensures SpaceRunBefore(s, j) < j ==> !IsSpace(s[j - SpaceRunBefore(s, j) - 1])
  {
    if j > 0 && IsSpace(s[j - 1]) {
      SpaceRunBeforeSpec(s, j - 1);
    }
  }

  /** The leading whitespace is all whitespace, and the character after it,
      if any, is not. */
  lemma LeadingSpaceSpec(s: string)
    ensures LeadingSpace(s) <= |s| && AllSpace(s[..LeadingSpace(s)])
    ensures LeadingSpace(s) < |s| ==> !IsSpace(s[LeadingSpace(s)])
  {
    SpaceRunFromSpec(s, 0);
  }

  /** The trailing whitespace is all whitespace, and the character before
      it, if any, is not. */
  lemma TrailingStartSpec(s: string)
    ensures TrailingStart(s) <= |s| && AllSpace(s[TrailingStart(s)..])
    ensures TrailingStart(s) > 0 ==> !IsSpace(s[TrailingStart(s) - 1])
  {
    SpaceRunBeforeSpec(s, |s|);
  }

  /** The trailing whitespace starts after the last non-whitespace character
      the leading whitespace stops at; both meet when `s` is all whitespace. */
  lemma LeadingBeforeTrailing(s: string)
    ensures LeadingSpace(s) < TrailingStart(s) <==> !AllSpace(s)
  {
    var i := LeadingSpace(s);
    var j := TrailingStart(s);
    SpaceRunFromSpec(s, 0);
    SpaceRunBeforeSpec(s, |s|);
    if i < |s| {
      assert !IsSpace(s[i]);
      assert i < j;
    } else {
      assert AllSpace(s);
    }
  }

  /** What stripping leaves is the infix of `s` between its leading and its
      trailing whitespace, and it starts and ends with a non-whitespace
      character. */
  lemma TrimInfix(s: string)
    ensures var i := LeadingSpace(s); var r := Trim(s);
      && i + |r| <= |s| && r == s[i..i + |r|]
      && AllSpace(s[..i]) && AllSpace(s[i + |r|..])
    ensures var r := Trim(s); r == [] || (!IsSpace(r[0]) && !IsSpace(r[|r| - 1]))
  {
    var i := LeadingSpace(s);
    var j := TrailingStart(s);
    LeadingSpaceSpec(s);
    TrailingStartSpec(s);
    LeadingBeforeTrailing(s);
    if i >= j {
      assert AllSpace(s[i..]);
    }
  }

  /** Stripping leaves nothing exactly when `s` is all whitespace. */
  lemma TrimEmpty(s: string)
    ensures Trim(s) == [] <==> AllSpace(s)
  {
    LeadingBeforeTrailing(s);
  }

  /** Stripping twice strips no more than stripping once. */
  lemma TrimIdempotent(s: string)
    ensures Trim(Trim(s)) == Trim(s)
  {
    var r := Trim(s);
    TrimInfix(s);
    if r != [] {
      assert LeadingSpace(r) == 0;
      assert SpaceRunBefore(r, |r|) == 0;
    }
  }

  // ---------------------------------------------------------------------
  // Case
  // ---------------------------------------------------------------------

  function LowerChar(c: char): char
  {
    if 'A' <= c <= 'Z' then (c as int - 'A' as int + 'a' as int) as char else c
  }

  /** No ASCII capital letter occurs in `s`. */
  predicate NoCapitals(s: string)
  {
    forall k :: 0 <= k < |s| ==> !('A' <= s[k] <= 'Z')
  }

  /** `a` and `b` differ at most in the case of ASCII letters. */
  predicate EqualIgnoringCase(a: string, b: string)
  {
    |a| == |b| && forall k :: 0 <= k < |a| ==> LowerChar(a[k]) == LowerChar(b[k])
  }

  /** `s.lower()` on ASCII letters; every other character is kept. The
      result holds no capital and matches `s` up to case, and these two
      facts fix it (see `LowerUnique`). */
  function Lower(s: string): (r: string)
    ensures NoCapitals(r)
    ensures EqualIgnoringCase(r, s)
  {
    seq(|s|, k requires 0 <= k < |s| => LowerChar(s[k]))
  }

  /** Any text without capitals that matches `s` up to case is `Lower(s)`. */
  lemma LowerUnique(s: string, t: string)
    requires NoCapitals(t) && EqualIgnoringCase(t, s)
    ensures t == Lower(s)
  {
    var r := Lower(s);
    forall k | 0 <= k < |t|
      ensures t[k] == r[k]
    {
      assert LowerChar(t[k]) == t[k];
      assert LowerChar(r[k]) == r[k];
      assert LowerChar(t[k]) == LowerChar(s[k]) == LowerChar(r[k]);
    }
  }

  /** Lower-casing a text equals a given capital-free text exactly when the
      two match up to case. */
  lemma LowerEqualsIff(s: string, t: string)
    requires NoCapitals(t)
    ensures Lower(s) == t <==> EqualIgnoringCase(s, t)
  {
    if EqualIgnoringCase(s, t) {
      LowerUnique(s, t);
    }
  }

  /** Lower-casing twice is lower-casing once. */
  lemma LowerIdempotent(s: string)
    ensures Lower(Lower(s)) == Lower(s)
  {
    LowerUnique(Lower(s), Lower(s));
  }

  // ---------------------------------------------------------------------
  // Decimal numerals
  // ---------------------------------------------------------------------

  function Digit(d: nat): char
    requires d < 10
  {
    "0123456789"[d]
  }

  function DigitValue(c: char): nat
  {
    if '0' <= c <= '9' then c as int - '0' as int else 0
  }

  /** The decimal numeral `f"{n}"` produces for a non-negative integer. */
  function NatToString(n: nat): (r: string)
    ensures |r| > 0
    ensures forall k :: 0 <= k < |r| ==> '0' <= r[k] <= '9'
  {
    if n < 10 then [Digit(n)] else NatToString(n / 10) + [Digit(n % 10)]
  }

  /** Reads a decimal numeral back. */
  function ParseNat(s: string): nat
  {
    if s == [] then 0 else ParseNat(s[..|s| - 1]) * 10 + DigitValue(s[|s| - 1])
  }

  /** Reading back a rendered numeral gives the number, so distinct numbers have distinct numerals. */
  lemma {:induction false} ParseNatToString(n: nat)
    ensures ParseNat(NatToString(n)) == n
  {
    var s := NatToString(n);
    if n < 10 {
      assert s[..0] == [];
    } else {
      ParseNatToString(n / 10);
      assert s[..|s| - 1] == NatToString(n / 10);
      assert DigitValue(Digit(n % 10)) == n % 10;
    }
  }

}
