/** Operator-name canonicalisation and the image URLs built from it. */
module OperatorImages {
  import opened Wrappers
  import opened Text
  import opened JsValue
  import Unicode

  /** Where the operator pictures are published. */
  const BASE: string := "https://raw.githubusercontent.com/kmart93-creator/r6-operator-images/main"

  /** `String(name)` with the parameter default `''` for a missing argument. */
  function ArgumentText(name: Option<JVal>): (r: string)
    ensures name.None? ==> r == ""
    ensures name == Some(JNull) ==> r == "null"
    ensures name.Some? && name.value.JStr? ==> r == name.value.s
  {
    if name.None? then "" else ToJsString(name.value)
  }

  /** The string pipeline of `slugify`: lower-case, decompose, delete the
      marks U+0300–U+036F, then delete everything outside `[a-z0-9]`. */
  function Canonicalize(s: string): (r: string)
    ensures forall i :: 0 <= i < |r| ==> IsSlugChar(r[i])
  {
    Filter(IsSlugChar, Filter(Unicode.NotCombiningMark, Unicode.Nfd(Unicode.ToLower(s))))
  }

  /** `slugify(name)` */
  function Slugify(name: Option<JVal>): (r: string)
    ensures forall i :: 0 <= i < |r| ==> IsSlugChar(r[i])
  {
    Canonicalize(ArgumentText(name))
  }

  /** The `{icon, figure}` pair; both point to the same picture. */
  datatype Image = Image(icon: string, figure: string)

  function ImageUrl(slug: string): (r: string)
    ensures |r| == |BASE| + |slug| + 5
    ensures r[..|BASE| + 1] == BASE + "/" && r[|BASE| + 1..|r| - 4] == slug && r[|r| - 4..] == ".png"
  {
    var r := BASE + "/" + slug + ".png";
    assert r == (BASE + "/") + slug + ".png";
    r
  }

  /** `getOperatorImage(name)`: `null` (here `None`) for an empty slug,
      otherwise the picture named after the slug. */
  function GetOperatorImage(name: Option<JVal>): (r: Option<Image>)
    ensures r.None? <==> Slugify(name) == []
    ensures r.Some? ==> r.value.icon == r.value.figure == BASE + "/" + Slugify(name) + ".png"
  {
    var slug := Slugify(name);
    if slug == [] then None
    else
      var url := ImageUrl(slug);
      Some(Image(url, url))
  }

  /** Reads the slug back out of a picture URL. */
  function SlugOfUrl(url: string): Option<string>
  {
    var prefix := BASE + "/";
    if |url| >= |prefix| + 4 && url[..|prefix|] == prefix && url[|url| - 4..] == ".png"
    then Some(url[|prefix|..|url| - 4])
    else None
  }

  // ---------------------------------------------------------------------
  // Properties of the slug

  /** The slug of a concatenation is the concatenation of the slugs: every
      stage works character by character. */
  lemma CanonicalizeAppend(a: string, b: string)
    ensures Canonicalize(a + b) == Canonicalize(a) + Canonicalize(b)
  {
    FlatMapAppend(Unicode.LowerChar, a, b);
    FlatMapAppend(Unicode.Decompose, Unicode.ToLower(a), Unicode.ToLower(b));
    var na, nb := Unicode.Nfd(Unicode.ToLower(a)), Unicode.Nfd(Unicode.ToLower(b));
    FilterAppend(Unicode.NotCombiningMark, na, nb);
    FilterAppend(IsSlugChar, Filter(Unicode.NotCombiningMark, na), Filter(Unicode.NotCombiningMark, nb));
  }

  /** A string over `[a-z0-9]` is its own slug. */
  lemma CanonicalizeSlug(s: string)
    requires forall i :: 0 <= i < |s| ==> IsSlugChar(s[i])
    ensures Canonicalize(s) == s
  {
    Unicode.FixesSlugStrings(s);
    FilterIdentity(Unicode.NotCombiningMark, s);
    FilterIdentity(IsSlugChar, s);
  }

  /** Idempotence: slugifying a slug changes nothing. */
  lemma CanonicalizeIdempotent(s: string)
    ensures Canonicalize(Canonicalize(s)) == Canonicalize(s)
  {
    CanonicalizeSlug(Canonicalize(s));
  }

  lemma SlugifyIdempotent(name: Option<JVal>)
    ensures Slugify(Some(JStr(Slugify(name)))) == Slugify(name)
  {
    CanonicalizeSlug(Slugify(name));
  }

  /** Names that differ only in the case of ASCII letters have the same slug. */
  lemma CaseInsensitive(a: string, b: string)
    requires |a| == |b|
    requires forall i :: 0 <= i < |a| ==> AsciiLowerChar(a[i]) == AsciiLowerChar(b[i])
    ensures Canonicalize(a) == Canonicalize(b)
  {
    forall i | 0 <= i < |a| ensures Unicode.LowerChar(a[i]) == Unicode.LowerChar(b[i]) {
      if a[i] != b[i] {
        assert IsAscii(a[i]) && IsAscii(b[i]);
      }
    }
    FlatMapPointwise(Unicode.LowerChar, a, b);
  }

  /** A combining mark contributes nothing to the slug. */
  lemma CanonicalizeMark(c: char)
    requires Unicode.IsCombiningMark(c)
    ensures Canonicalize([c]) == []
  {
    FlatMapSingle(Unicode.LowerChar, c);
    FlatMapSingle(Unicode.Decompose, c);
  }

  /** Deleting the combining marks U+0300–U+036F from a name does not change its slug. */
  lemma {:induction false} MarksIgnored(s: string)
    ensures Canonicalize(Filter(Unicode.NotCombiningMark, s)) == Canonicalize(s)
  {
    if s != [] {
      MarksIgnored(s[1..]);
      assert s == [s[0]] + s[1..];
      CanonicalizeAppend([s[0]], s[1..]);
      var head := if Unicode.NotCombiningMark(s[0]) then [s[0]] else [];
      CanonicalizeAppend(head, Filter(Unicode.NotCombiningMark, s[1..]));
      if !Unicode.NotCombiningMark(s[0]) {
        CanonicalizeMark(s[0]);
        assert head + Filter(Unicode.NotCombiningMark, s[1..]) == Filter(Unicode.NotCombiningMark, s[1..]);
      }
    }
  }

  /** Names that differ only in combining marks have the same slug. */
  lemma DifferOnlyInMarks(a: string, b: string)
    requires Filter(Unicode.NotCombiningMark, a) == Filter(Unicode.NotCombiningMark, b)
    ensures Canonicalize(a) == Canonicalize(b)
  {
    MarksIgnored(a);
    MarksIgnored(b);
  }

  /** On ASCII input the slug is the ASCII-lower-cased input with every
      character outside `[a-z0-9]` deleted, in the original order. */
  lemma AsciiSlug(s: string)
    requires forall i :: 0 <= i < |s| ==> IsAscii(s[i])
    ensures Canonicalize(s) == Filter(IsSlugChar, seq(|s|, i requires 0 <= i < |s| => AsciiLowerChar(s[i])))
  {
    var lowered := seq(|s|, i requires 0 <= i < |s| => AsciiLowerChar(s[i]));
    Unicode.ToLowerAscii(s);
    FlatMapIdentity(Unicode.Decompose, lowered);
    FilterIdentity(Unicode.NotCombiningMark, lowered);
  }

  // ---------------------------------------------------------------------
  // Properties of the picture lookup

  /** Round trip: the slug can be read back from the URL. */
  lemma ImageUrlRoundTrip(slug: string)
    ensures SlugOfUrl(ImageUrl(slug)) == Some(slug)
  {
    var prefix := BASE + "/";
    var url := ImageUrl(slug);
    assert url == prefix + slug + ".png";
    assert url[..|prefix|] == prefix;
    assert url[|url| - 4..] == ".png";
    assert url[|prefix|..|url| - 4] == slug;
  }

  /** Two names get the same picture exactly when they have the same slug. */
  lemma SameImageIffSameSlug(a: Option<JVal>, b: Option<JVal>)
    ensures GetOperatorImage(a) == GetOperatorImage(b) <==> Slugify(a) == Slugify(b)
  {
    if GetOperatorImage(a) == GetOperatorImage(b) && Slugify(a) != [] {
      ImageUrlRoundTrip(Slugify(a));
      ImageUrlRoundTrip(Slugify(b));
    }
  }

  /** A missing argument (the default `''`) has no picture. */
  lemma MissingNameHasNoImage()
    ensures GetOperatorImage(None) == None
  {
  }

  /** A name made only of punctuation and spaces has no picture. */
  lemma PunctuationHasNoImage(s: string)
    requires forall i :: 0 <= i < |s| ==> IsAscii(s[i]) && !IsAsciiUpper(s[i]) && !IsSlugChar(s[i])
    ensures GetOperatorImage(Some(JStr(s))) == None
  {
    var lowered := seq(|s|, i requires 0 <= i < |s| => AsciiLowerChar(s[i]));
    AsciiSlug(s);
    FilterNone(IsSlugChar, lowered);
  }

  /** `String(null)` is the text "null", so a `null` argument does get a
      picture, `null.png`. */
  lemma NullNameHasImage()
    ensures GetOperatorImage(Some(JNull)) == Some(Image(ImageUrl("null"), ImageUrl("null")))
  {
    CanonicalizeSlug("null");
  }

  /** The slug of a single character that lower-cases to one character. */
  lemma CanonicalizeChar(c: char)
    requires |Unicode.LowerChar(c)| == 1
    ensures Canonicalize([c]) == Filter(IsSlugChar, Filter(Unicode.NotCombiningMark, Unicode.Decompose(Unicode.LowerChar(c)[0])))
  {
    FlatMapSingle(Unicode.LowerChar, c);
    assert Unicode.LowerChar(c) == [Unicode.LowerChar(c)[0]];
    FlatMapSingle(Unicode.Decompose, Unicode.LowerChar(c)[0]);
  }

  /** A precomposed letter such as `ä` or `Ä` has the slug of its base letter. */
  lemma PrecomposedSlug(c: char)
    requires |Unicode.Decompose(c)| == 2
    ensures Canonicalize([c]) == Canonicalize([Unicode.Decompose(c)[0]])
  {
    var d := Unicode.Decompose(c);
    var b := d[0];
    var lb := AsciiLowerChar(b);
    // The base letter alone slugs to its ASCII lower case.
    AsciiSlug([b]);
    assert Canonicalize([b]) == [lb];
    // The letter itself lower-cases to a small letter that decomposes to it plus the mark.
    var e: string;
    if IsAsciiUpper(b) {
      Unicode.LowerThenDecompose(c);
      e := Unicode.Decompose((c as int + 0x20) as char);
      assert Unicode.LowerChar(c) == [(c as int + 0x20) as char];
    } else {
      e := d;
      assert Unicode.LowerChar(c) == [c];
    }
    assert e == [lb, d[1]];
    CanonicalizeChar(c);
    assert Filter(Unicode.NotCombiningMark, e) == [lb];
    assert Filter(IsSlugChar, [lb]) == [lb];
  }

  /** A character with its accent removed: the base letter of a precomposed
      letter, any other character unchanged. */
  function BaseLetter(c: char): (r: string)
    ensures |r| == 1
    ensures |Unicode.Decompose(c)| != 2 ==> r == [c]
  {
    if |Unicode.Decompose(c)| == 2 then [Unicode.Decompose(c)[0]] else [c]
  }

  /** Replacing every precomposed letter by its base letter leaves the slug
      unchanged. */
  lemma {:induction false} AccentsIgnored(s: string)
    ensures Canonicalize(FlatMap(BaseLetter, s)) == Canonicalize(s)
  {
    if s != [] {
      AccentsIgnored(s[1..]);
      assert s == [s[0]] + s[1..];
      CanonicalizeAppend([s[0]], s[1..]);
      CanonicalizeAppend(BaseLetter(s[0]), FlatMap(BaseLetter, s[1..]));
      if |Unicode.Decompose(s[0])| == 2 {
        PrecomposedSlug(s[0]);
      }
    }
  }

  /** Names that differ only by diacritics, precomposed or written as
      combining marks, or by ASCII letter case have the same slug. */
  lemma DifferOnlyInAccentsOrCase(a: string, b: string)
    requires var x, y := Filter(Unicode.NotCombiningMark, FlatMap(BaseLetter, a)), Filter(Unicode.NotCombiningMark, FlatMap(BaseLetter, b));
      |x| == |y| && forall i :: 0 <= i < |x| ==> AsciiLowerChar(x[i]) == AsciiLowerChar(y[i])
    ensures Canonicalize(a) == Canonicalize(b)
  {
    var x, y := Filter(Unicode.NotCombiningMark, FlatMap(BaseLetter, a)), Filter(Unicode.NotCombiningMark, FlatMap(BaseLetter, b));
    AccentsIgnored(a);
    AccentsIgnored(b);
    MarksIgnored(FlatMap(BaseLetter, a));
    MarksIgnored(FlatMap(BaseLetter, b));
    CaseInsensitive(x, y);
  }

  /** `ä` and `Ä` both slug to `a`: the diaeresis is split off and deleted. */
  lemma UmlautSlug()
    ensures Canonicalize("\U{E4}") == "a"
    ensures Canonicalize("\U{C4}") == "a"
  {
    assert Unicode.LowerChar('\U{E4}') == ['\U{E4}'];
    assert Unicode.LowerChar('\U{C4}') == ['\U{E4}'];
    assert Unicode.Decompose('\U{E4}') == "a\U{308}";
    assert Filter(Unicode.NotCombiningMark, "a\U{308}") == "a";
    assert Filter(IsSlugChar, "a") == "a";
    CanonicalizeChar('\U{E4}');
    CanonicalizeChar('\U{C4}');
  }

  /** `ø` and `ß` have no decomposition and lie outside `[a-z0-9]`, so they vanish. */
  lemma UndecomposedSlug()
    ensures Canonicalize("\U{F8}") == []
    ensures Canonicalize("\U{DF}") == []
  {
    assert Unicode.LowerChar('\U{F8}') == ['\U{F8}'];
    assert Unicode.LowerChar('\U{DF}') == ['\U{DF}'];
    assert Unicode.Decompose('\U{F8}') == ['\U{F8}'];
    assert Unicode.Decompose('\U{DF}') == ['\U{DF}'];
    assert Filter(Unicode.NotCombiningMark, ['\U{F8}']) == ['\U{F8}'];
    assert Filter(Unicode.NotCombiningMark, ['\U{DF}']) == ['\U{DF}'];
    assert Filter(IsSlugChar, ['\U{F8}']) == [];
    assert Filter(IsSlugChar, ['\U{DF}']) == [];
    CanonicalizeChar('\U{F8}');
    CanonicalizeChar('\U{DF}');
  }

  /** The example of the source's comment: "ash" stays "ash" and "jäger"
      becomes "jager", in its precomposed, decomposed and upper-case spellings. */
  lemma AshExample()
    ensures Canonicalize("ash") == "ash"
  {
    CanonicalizeSlug("ash");
  }

  /** The slug of a piece `m` between two stretches already over `[a-z0-9]`. */
  lemma SlugAround(x: string, m: string, y: string, sm: string)
    requires forall i :: 0 <= i < |x| ==> IsSlugChar(x[i])
    requires forall i :: 0 <= i < |y| ==> IsSlugChar(y[i])
    requires Canonicalize(m) == sm
    ensures Canonicalize(x + m + y) == x + sm + y
  {
    CanonicalizeSlug(x);
    CanonicalizeSlug(y);
    CanonicalizeAppend(x, m);
    CanonicalizeAppend(x + m, y);
  }

  lemma JagerExample()
    ensures Canonicalize("j" + "\U{E4}" + "ger") == "jager"
  {
    UmlautSlug();
    SlugAround("j", "\U{E4}", "ger", "a");
  }

  lemma DecomposedJagerExample()
    ensures Canonicalize("ja" + "\U{308}" + "ger") == "jager"
  {
    CanonicalizeMark('\U{308}');
    SlugAround("ja", "\U{308}", "ger", "");
  }

  lemma UpperJagerExample()
    ensures Canonicalize("J" + "\U{C4}" + "GER") == "jager"
  {
    UmlautSlug();
    UpperPieces();
    CanonicalizeAppend("J", "\U{C4}");
    CanonicalizeAppend("J" + "\U{C4}", "GER");
  }

  lemma UpperPieces()
    ensures Canonicalize("J") == "j" && Canonicalize("GER") == "ger"
  {
    CaseInsensitive("J", "j");
    CaseInsensitive("GER", "ger");
    CanonicalizeSlug("j");
    CanonicalizeSlug("ger");
  }

  /** "Nøkk" slugs to "nkk": `ø` is dropped, as `ß` is. */
  lemma NokkExample()
    ensures Canonicalize("N" + "\U{F8}" + "kk") == "nkk"
  {
    UndecomposedSlug();
    SlugAround("n", "\U{F8}", "kk", "");
    FirstLetterCase('N', 'n', "\U{F8}" + "kk");
    assert "N" + "\U{F8}" + "kk" == ['N'] + ("\U{F8}" + "kk");
    assert "n" + "\U{F8}" + "kk" == ['n'] + ("\U{F8}" + "kk");
  }

  /** The case of a name's first letter does not matter. */
  lemma FirstLetterCase(c: char, d: char, t: string)
    requires AsciiLowerChar(c) == AsciiLowerChar(d)
    ensures Canonicalize([c] + t) == Canonicalize([d] + t)
  {
    var a, b := [c] + t, [d] + t;
    forall i | 0 <= i < |a| ensures AsciiLowerChar(a[i]) == AsciiLowerChar(b[i]) {
      if i > 0 {
        assert a[i] == t[i - 1] == b[i];
      }
    }
    CaseInsensitive(a, b);
  }

  /** The slug of a piece followed by a stretch already over `[a-z0-9]`. */
  lemma SlugSuffix(x: string, sx: string, y: string)
    requires Canonicalize(x) == sx
    requires forall i :: 0 <= i < |y| ==> IsSlugChar(y[i])
    ensures Canonicalize(x + y) == sx + y
  {
    CanonicalizeSlug(y);
    CanonicalizeAppend(x, y);
  }

  lemma CapitalJaPrefix()
    ensures Canonicalize("J" + "\U{E4}") == "ja"
  {
    UpperPieces();
    UmlautSlug();
    CanonicalizeAppend("J", "\U{E4}");
  }

  /** "Jäger" with a capital initial, the spelling of the default defender. */
  lemma CapitalJagerExample()
    ensures Canonicalize("J" + "\U{E4}" + "ger") == "jager"
  {
    CapitalJaPrefix();
    SlugSuffix("J" + "\U{E4}", "ja", "ger");
  }

  /** The picture of a name whose slug is known. */
  lemma ImageOfSlug(name: Option<JVal>, slug: string)
    requires Slugify(name) == slug && slug != []
    ensures GetOperatorImage(name) == Some(Image(ImageUrl(slug), ImageUrl(slug)))
  {
  }
}
