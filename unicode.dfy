/** The slice of Unicode the bot's string handling touches, as explicit
    tables: `String.prototype.toLowerCase` and `normalize('NFD')` are
    modelled character by character over Basic Latin, Latin-1 Supplement
    and U+0130; every other character is treated as its own lower case and
    as having no decomposition. */
module Unicode {
  import opened Text

  /** Combining Diacritical Marks, the block U+0300–U+036F. */
  predicate IsCombiningMark(c: char) { 0x300 <= c as int <= 0x36F }

  predicate NotCombiningMark(c: char) { !IsCombiningMark(c) }

  /** Full lower-case mapping of one character. `İ` (U+0130) lowers to two
      characters, `i` followed by U+0307 COMBINING DOT ABOVE. */
  function LowerChar(c: char): (r: string)
    ensures IsSlugChar(c) || IsCombiningMark(c) ==> r == [c]
    ensures IsAsciiUpper(c) ==> r == [AsciiLowerChar(c)]
    ensures IsAscii(c) ==> r == [AsciiLowerChar(c)]
  {
    var n := c as int;
    if IsAsciiUpper(c) then [AsciiLowerChar(c)]
    else if 0xC0 <= n <= 0xDE && n != 0xD7 then [(n + 0x20) as char]
    else if n == 0x130 then "i\U{307}"
    else [c]
  }

  /** Canonical decomposition of one character: the Latin-1 letters with a
      diacritic split into an ASCII base letter and a combining mark. The
      other Latin-1 letters (Æ, Ð, Ø, Þ, ß, æ, ð, ø, þ) and the signs × and ÷
      have no decomposition. */
  function Decompose(c: char): (r: string)
    ensures !(0xC0 <= c as int <= 0xFF) ==> r == [c]
    ensures IsSlugChar(c) || IsCombiningMark(c) ==> r == [c]
    ensures |r| == 2 ==> IsAscii(r[0]) && IsCombiningMark(r[1])
    ensures |r| == 2 ==> IsAsciiUpper(r[0]) || IsAsciiLower(r[0])
    ensures |r| == 1 || |r| == 2
    ensures |r| == 2 && IsAsciiUpper(r[0]) ==> 0xC0 <= c as int <= 0xDE && c as int != 0xD7
    ensures |r| == 2 && IsAsciiLower(r[0]) ==> 0xE0 <= c as int <= 0xFF
  {
    match c as int
    case 0xC0 => "A\U{300}"  // Latin Capital Letter A With Grave
    case 0xC1 => "A\U{301}"  // Latin Capital Letter A With Acute
    case 0xC2 => "A\U{302}"  // Latin Capital Letter A With Circumflex
    case 0xC3 => "A\U{303}"  // Latin Capital Letter A With Tilde
    case 0xC4 => "A\U{308}"  // Latin Capital Letter A With Diaeresis
    case 0xC5 => "A\U{30A}"  // Latin Capital Letter A With Ring Above
    case 0xC7 => "C\U{327}"  // Latin Capital Letter C With Cedilla
    case 0xC8 => "E\U{300}"  // Latin Capital Letter E With Grave
    case 0xC9 => "E\U{301}"  // Latin Capital Letter E With Acute
    case 0xCA => "E\U{302}"  // Latin Capital Letter E With Circumflex
    case 0xCB => "E\U{308}"  // Latin Capital Letter E With Diaeresis
    case 0xCC => "I\U{300}"  // Latin Capital Letter I With Grave
    case 0xCD => "I\U{301}"  // Latin Capital Letter I With Acute
    case 0xCE => "I\U{302}"  // Latin Capital Letter I With Circumflex
    case 0xCF => "I\U{308}"  // Latin Capital Letter I With Diaeresis
    case 0xD1 => "N\U{303}"  // Latin Capital Letter N With Tilde
    case 0xD2 => "O\U{300}"  // Latin Capital Letter O With Grave
    case 0xD3 => "O\U{301}"  // Latin Capital Letter O With Acute
    case 0xD4 => "O\U{302}"  // Latin Capital Letter O With Circumflex
    case 0xD5 => "O\U{303}"  // Latin Capital Letter O With Tilde
    case 0xD6 => "O\U{308}"  // Latin Capital Letter O With Diaeresis
    case 0xD9 => "U\U{300}"  // Latin Capital Letter U With Grave
    case 0xDA => "U\U{301}"  // Latin Capital Letter U With Acute
    case 0xDB => "U\U{302}"  // Latin Capital Letter U With Circumflex
    case 0xDC => "U\U{308}"  // Latin Capital Letter U With Diaeresis
    case 0xDD => "Y\U{301}"  // Latin Capital Letter Y With Acute
    case 0xE0 => "a\U{300}"  // Latin Small Letter A With Grave
    case 0xE1 => "a\U{301}"  // Latin Small Letter A With Acute
    case 0xE2 => "a\U{302}"  // Latin Small Letter A With Circumflex
    case 0xE3 => "a\U{303}"  // Latin Small Letter A With Tilde
    case 0xE4 => "a\U{308}"  // Latin Small Letter A With Diaeresis
    case 0xE5 => "a\U{30A}"  // Latin Small Letter A With Ring Above
    case 0xE7 => "c\U{327}"  // Latin Small Letter C With Cedilla
    case 0xE8 => "e\U{300}"  // Latin Small Letter E With Grave
    case 0xE9 => "e\U{301}"  // Latin Small Letter E With Acute
    case 0xEA => "e\U{302}"  // Latin Small Letter E With Circumflex
    case 0xEB => "e\U{308}"  // Latin Small Letter E With Diaeresis
    case 0xEC => "i\U{300}"  // Latin Small Letter I With Grave
    case 0xED => "i\U{301}"  // Latin Small Letter I With Acute
    case 0xEE => "i\U{302}"  // Latin Small Letter I With Circumflex
    case 0xEF => "i\U{308}"  // Latin Small Letter I With Diaeresis
    case 0xF1 => "n\U{303}"  // Latin Small Letter N With Tilde
    case 0xF2 => "o\U{300}"  // Latin Small Letter O With Grave
    case 0xF3 => "o\U{301}"  // Latin Small Letter O With Acute
    case 0xF4 => "o\U{302}"  // Latin Small Letter O With Circumflex
    case 0xF5 => "o\U{303}"  // Latin Small Letter O With Tilde
    case 0xF6 => "o\U{308}"  // Latin Small Letter O With Diaeresis
    case 0xF9 => "u\U{300}"  // Latin Small Letter U With Grave
    case 0xFA => "u\U{301}"  // Latin Small Letter U With Acute
    case 0xFB => "u\U{302}"  // Latin Small Letter U With Circumflex
    case 0xFC => "u\U{308}"  // Latin Small Letter U With Diaeresis
    case 0xFD => "y\U{301}"  // Latin Small Letter Y With Acute
    case 0xFF => "y\U{308}"  // Latin Small Letter Y With Diaeresis
    case _ => [c]
  }

  /** Lower-casing a Latin-1 capital letter commutes with decomposing it:
      the small letter decomposes into the lower-cased base letter and the
      same mark. */
  lemma LowerThenDecompose(c: char)
    requires 0xC0 <= c as int <= 0xDE && c as int != 0xD7
    ensures var d, e := Decompose(c), Decompose((c as int + 0x20) as char);
      |d| == |e| && (|d| == 2 ==> e[0] == AsciiLowerChar(d[0]) && e[1] == d[1])
  {
  }

  /** `s.toLowerCase()` */
  function ToLower(s: string): string
  {
    FlatMap(LowerChar, s)
  }

  /** `s.normalize('NFD')`, without canonical reordering of marks. */
  function Nfd(s: string): string
  {
    FlatMap(Decompose, s)
  }

  /** The assumption the slug pipeline relies on: both mappings leave a
      string over `[a-z0-9]` unchanged. */
  lemma FixesSlugStrings(s: string)
    requires forall i :: 0 <= i < |s| ==> IsSlugChar(s[i])
    ensures ToLower(s) == s && Nfd(s) == s
  {
    FlatMapIdentity(LowerChar, s);
    FlatMapIdentity(Decompose, s);
  }

  /** On ASCII text, lower-casing is the ASCII letter mapping. */
  lemma {:induction false} ToLowerAscii(s: string)
    requires forall i :: 0 <= i < |s| ==> IsAscii(s[i])
    ensures ToLower(s) == seq(|s|, i requires 0 <= i < |s| => AsciiLowerChar(s[i]))
  {
    if s != [] {
      ToLowerAscii(s[1..]);
    }
  }

  /** Lower-casing maps a character to one or two characters, so it never
      shortens a string and at most doubles it. */
  lemma ToLowerLength(s: string)
    ensures |s| <= |ToLower(s)| <= 2 * |s|
  {
    FlatMapLength(LowerChar, s);
  }

  /** Decomposition maps a character to one or two characters. */
  lemma NfdLength(s: string)
    ensures |s| <= |Nfd(s)| <= 2 * |s|
  {
    FlatMapLength(Decompose, s);
  }

  /** Every character of a lowered character is its own lower case. */
  lemma LowerCharIsLower(c: char)
    ensures ToLower(LowerChar(c)) == LowerChar(c)
  {
    FlatMapIdentity(LowerChar, LowerChar(c));
  }

  /** Lowering an already lowered string changes nothing. */
  lemma ToLowerIdempotent(s: string)
    ensures ToLower(ToLower(s)) == ToLower(s)
  {
    forall c: char
      ensures FlatMap(LowerChar, LowerChar(c)) == LowerChar(c)
    {
      LowerCharIsLower(c);
    }
    FlatMapIdempotent(LowerChar, s);
  }

  /** Every character of a decomposition has no decomposition of its own. */
  lemma DecomposeIsNormal(c: char)
    ensures Nfd(Decompose(c)) == Decompose(c)
  {
    FlatMapIdentity(Decompose, Decompose(c));
  }

  /** Normalizing an already normalized string changes nothing. */
  lemma NfdIdempotent(s: string)
    ensures Nfd(Nfd(s)) == Nfd(s)
  {
    forall c: char
      ensures FlatMap(Decompose, Decompose(c)) == Decompose(c)
    {
      DecomposeIsNormal(c);
    }
    FlatMapIdempotent(Decompose, s);
  }

  /** Examples of the decomposition table: `ä` is `a` + U+0308, `ã` is
      `a` + U+0303, `ø` and `ß` do not decompose. */
  lemma DecomposeExamples()
    ensures Decompose('\U{E4}') == "a\U{308}"
    ensures Decompose('\U{C4}') == "A\U{308}"
    ensures Decompose('\U{E3}') == "a\U{303}"
    ensures Decompose('\U{E7}') == "c\U{327}"
    ensures Decompose('\U{F8}') == "\U{F8}"
    ensures Decompose('\U{DF}') == "\U{DF}"
  {
  }
}
