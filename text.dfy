/** Character-sequence building blocks shared by the string pipelines:
    per-character rewriting (`FlatMap`), filtering (`Filter`) and the ASCII
    character classes the bot's regular expressions use. */
module Text {

  /** `[a-z]` */
  predicate IsAsciiLower(c: char) { 'a' <= c <= 'z' }

  /** `[A-Z]` */
  predicate IsAsciiUpper(c: char) { 'A' <= c <= 'Z' }

  /** `[0-9]` */
  predicate IsAsciiDigit(c: char) { '0' <= c <= '9' }

  /** `[a-z0-9]`, the alphabet of an operator slug. */
  predicate IsSlugChar(c: char) { IsAsciiLower(c) || IsAsciiDigit(c) }

  predicate IsAscii(c: char) { c as int < 0x80 }

  /** ASCII-only lower-casing: `A`-`Z` become `a`-`z`, every other character
      is left alone. */
  function AsciiLowerChar(c: char): (r: char)
    ensures IsAsciiUpper(c) ==> IsAsciiLower(r) && r as int - c as int == 32
    ensures !IsAsciiUpper(c) ==> r == c
  {
    if IsAsciiUpper(c) then (c as int + 32) as char else c
  }

  /** Replaces every character `c` by the string `f(c)`, keeping the order. */
  function FlatMap(f: char -> string, s: string): string
  {
    if s == [] then [] else f(s[0]) + FlatMap(f, s[1..])
  }

  /** Keeps exactly the characters satisfying `p`, in their original order. */
  function Filter(p: char -> bool, s: string): (r: string)
    ensures forall i :: 0 <= i < |r| ==> p(r[i])
    ensures |r| <= |s|
  {
    if s == [] then [] else (if p(s[0]) then [s[0]] else []) + Filter(p, s[1..])
  }

  lemma {:induction false} FlatMapAppend(f: char -> string, a: string, b: string)
    ensures FlatMap(f, a + b) == FlatMap(f, a) + FlatMap(f, b)
  {
    if a == [] {
      assert a + b == b;
    } else {
      assert (a + b)[1..] == a[1..] + b;
      FlatMapAppend(f, a[1..], b);
    }
  }

  /** A rewriting that turns every character into one or two characters
      at least keeps and at most doubles the length. */
  lemma {:induction false} FlatMapLength(f: char -> string, s: string)
    requires forall c :: 1 <= |f(c)| <= 2
    ensures |s| <= |FlatMap(f, s)| <= 2 * |s|
  {
    if s != [] {
      FlatMapLength(f, s[1..]);
    }
  }

  /** A rewriting whose every output is already rewritten is idempotent. */
  lemma {:induction false} FlatMapIdempotent(f: char -> string, s: string)
    requires forall c :: FlatMap(f, f(c)) == f(c)
    ensures FlatMap(f, FlatMap(f, s)) == FlatMap(f, s)
  {
    if s != [] {
      FlatMapAppend(f, f(s[0]), FlatMap(f, s[1..]));
      FlatMapIdempotent(f, s[1..]);
    }
  }

  lemma {:induction false} FlatMapSingle(f: char -> string, c: char)
    ensures FlatMap(f, [c]) == f(c)
  {
    assert [c][1..] == [];
  }

  /** A rewriting that maps each character of `s` to itself leaves `s` unchanged. */
  lemma {:induction false} FlatMapIdentity(f: char -> string, s: string)
    requires forall i :: 0 <= i < |s| ==> f(s[i]) == [s[i]]
    ensures FlatMap(f, s) == s
  {
    if s != [] {
      FlatMapIdentity(f, s[1..]);
    }
  }

  /** If every piece `f(s[i])` lies in the alphabet `p`, so does the whole
      rewritten string. */
  lemma {:induction false} FlatMapAlphabet(f: char -> string, p: char -> bool, s: string)
    requires forall i, j :: 0 <= i < |s| && 0 <= j < |f(s[i])| ==> p(f(s[i])[j])
    ensures forall k :: 0 <= k < |FlatMap(f, s)| ==> p(FlatMap(f, s)[k])
  {
    if s != [] {
      FlatMapAlphabet(f, p, s[1..]);
      var head, tail := f(s[0]), FlatMap(f, s[1..]);
      forall k | 0 <= k < |head + tail| ensures p((head + tail)[k]) {
        if k < |head| {
          assert (head + tail)[k] == f(s[0])[k];
        } else {
          assert (head + tail)[k] == tail[k - |head|];
        }
      }
    }
  }

  lemma {:induction false} FilterAppend(p: char -> bool, a: string, b: string)
    ensures Filter(p, a + b) == Filter(p, a) + Filter(p, b)
  {
    if a == [] {
      assert a + b == b;
    } else {
      assert (a + b)[1..] == a[1..] + b;
      FilterAppend(p, a[1..], b);
    }
  }

  /** `Filter(p, s) == s` exactly when every character of `s` satisfies `p`. */
  lemma {:induction false} FilterIdentity(p: char -> bool, s: string)
    ensures Filter(p, s) == s <==> forall i :: 0 <= i < |s| ==> p(s[i])
  {
    if s != [] {
      FilterIdentity(p, s[1..]);
      if !p(s[0]) {
        assert |Filter(p, s)| < |s|;
      }
    }
  }

  /** Rewriting two strings that agree character by character under `f`
      gives the same result. */
  lemma {:induction false} FlatMapPointwise(f: char -> string, a: string, b: string)
    requires |a| == |b|
    requires forall i :: 0 <= i < |a| ==> f(a[i]) == f(b[i])
    ensures FlatMap(f, a) == FlatMap(f, b)
  {
    if a != [] {
      FlatMapPointwise(f, a[1..], b[1..]);
    }
  }

  /** Filtering a string none of whose characters satisfy `p` leaves nothing. */
  lemma {:induction false} FilterNone(p: char -> bool, s: string)
    requires forall i :: 0 <= i < |s| ==> !p(s[i])
    ensures Filter(p, s) == []
  {
    if s != [] {
      FilterNone(p, s[1..]);
    }
  }
}
