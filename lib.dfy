/**
 * The crate's library (src/lib.rs): `unicode_info` splits a string into
 * words, each word into grapheme clusters and each cluster into code points,
 * and labels every code point with its code, colour, display form, name and
 * age.
 */
module Lib {
  import opened Wrappers
  import opened Numerals
  import opened RustStd
  import opened Unic

  datatype Word = Word(content: string, graphemeClusters: seq<GraphemeCluster>)

  datatype GraphemeCluster = GraphemeCluster(content: string, codePoints: seq<CodePoint>)

  /** One code point and its labels; `character` is the Rust field `char`. */
  datatype CodePoint = CodePoint(
    age: string,
    categoryColor: string,
    character: char,
    code: string,
    display: string,
    generalCategory: string,
    generalCategoryAbbr: string,
    graphemeClusterBreak: string,
    isAlphabetic: bool,
    isLowercase: bool,
    isUppercase: bool,
    isWhiteSpace: bool,
    name: string)

  /** The keys serde gives a serialised `CodePoint`: its Rust field names, in declaration order. */
  const CodePointFieldNames: seq<string> :=
    ["age", "category_color", "char", "code", "display", "general_category", "general_category_abbr",
     "grapheme_cluster_break", "is_alphabetic", "is_lowercase", "is_uppercase", "is_white_space", "name"]

  /** The JSON values serde writes for the fields of a `CodePoint`. */
  datatype JsonValue = JsonString(text: string) | JsonBool(flag: bool)

  /** The value serde writes under the key `field`: the Rust field of that name; a `char` becomes a one-character string. */
  function FieldValue(cp: CodePoint, field: string): JsonValue {
    if field == "age" then JsonString(cp.age)
    else if field == "category_color" then JsonString(cp.categoryColor)
    else if field == "char" then JsonString([cp.character])
    else if field == "code" then JsonString(cp.code)
    else if field == "display" then JsonString(cp.display)
    else if field == "general_category" then JsonString(cp.generalCategory)
    else if field == "general_category_abbr" then JsonString(cp.generalCategoryAbbr)
    else if field == "grapheme_cluster_break" then JsonString(cp.graphemeClusterBreak)
    else if field == "is_alphabetic" then JsonBool(cp.isAlphabetic)
    else if field == "is_lowercase" then JsonBool(cp.isLowercase)
    else if field == "is_uppercase" then JsonBool(cp.isUppercase)
    else if field == "is_white_space" then JsonBool(cp.isWhiteSpace)
    else JsonString(cp.name)
  }

  /** `#[derive(Serialize)]` on `CodePoint`: an object with one key per Rust field, under the field's own name. */
  function SerializeCodePoint(cp: CodePoint): (obj: map<string, JsonValue>)
    ensures forall k :: k in obj <==> k in CodePointFieldNames
  {
    map k | k in CodePointFieldNames :: FieldValue(cp, k)
  }

  // ----- unicode_info and the nested structure -----

  /** The segments a filtering word iterator yields: those `keep` accepts, in order. */
  function Filter(segments: seq<string>, keep: string -> bool): (kept: seq<string>)
    ensures |kept| <= |segments|
    ensures forall w :: w in kept <==> w in segments && keep(w)
  {
    if segments == [] then []
    else if keep(segments[0]) then [segments[0]] + Filter(segments[1..], keep)
    else Filter(segments[1..], keep)
  }

  /** Filtering goes segment by segment: it keeps order and multiplicity. */
  lemma {:induction false} FilterConcat(a: seq<string>, b: seq<string>, keep: string -> bool)
    ensures Filter(a + b, keep) == Filter(a, keep) + Filter(b, keep)
    decreases |a|
  {
    if a != [] {
      assert (a + b)[0] == a[0];
      assert (a + b)[1..] == a[1..] + b;
      FilterConcat(a[1..], b, keep);
    } else {
      assert a + b == b;
    }
  }

  /** A single segment is kept exactly when `keep` accepts it. */
  lemma FilterSingle(w: string, keep: string -> bool)
    ensures Filter([w], keep) == if keep(w) then [w] else []
  {
    assert [w][1..] == [];
  }

  /** A filter that accepts everything drops nothing. */
  lemma {:induction false} FilterKeepingAll(segments: seq<string>, keep: string -> bool)
    requires forall w :: keep(w)
    ensures Filter(segments, keep) == segments
  {
    if segments != [] {
      FilterKeepingAll(segments[1..], keep);
      assert segments == [segments[0]] + segments[1..];
    }
  }

  /** `unicode_info(s)`: one `Word` per segment of `Words::new(s, |_| true)`, in order. */
  function UnicodeInfo(db: CharDatabase, s: string): (words: seq<Word>)
    ensures |words| == |db.words(s)|
    ensures forall i :: 0 <= i < |words| ==> words[i].content == db.words(s)[i]
    ensures forall i :: 0 <= i < |words| ==> words[i] == WordFromStr(db, db.words(s)[i])
  {
    var segments := Filter(db.words(s), _ => true);
    FilterKeepingAll(db.words(s), _ => true);
    seq(|segments|, i requires 0 <= i < |segments| => WordFromStr(db, segments[i]))
  }

  /** `Word::from_str`: the content verbatim, and one cluster per segment of `Graphemes::new`. */
  function WordFromStr(db: CharDatabase, w: string): (word: Word)
    ensures word.content == w
    ensures |word.graphemeClusters| == |db.graphemes(w)|
    ensures forall i :: 0 <= i < |word.graphemeClusters| ==>
              word.graphemeClusters[i] == GraphemeClusterFromStr(db, db.graphemes(w)[i])
  {
    var gcs := db.graphemes(w);
    Word(w, seq(|gcs|, i requires 0 <= i < |gcs| => GraphemeClusterFromStr(db, gcs[i])))
  }

  /** `GraphemeCluster::from_str`: the content verbatim, and one `CodePoint` per scalar value, in order. */
  function GraphemeClusterFromStr(db: CharDatabase, s: string): (g: GraphemeCluster)
    ensures g.content == s
    ensures |g.codePoints| == |s|
    ensures forall i :: 0 <= i < |s| ==> g.codePoints[i].character == s[i]
    ensures forall i :: 0 <= i < |s| ==> g.codePoints[i] == CodePointFromChar(db, s[i])
  {
    GraphemeCluster(s, seq(|s|, i requires 0 <= i < |s| => CodePointFromChar(db, s[i])))
  }

  /** `CodePoint::from_char`: the labels of one scalar value. */
  function CodePointFromChar(db: CharDatabase, c: char): (cp: CodePoint)
    ensures cp.character == c
    ensures |cp.code| >= 6 && cp.code[..2] == "U+" && AllDigits(cp.code[2..], 16) && ParseDigits(cp.code[2..], 16) == c as int
    ensures cp.categoryColor in Palette
    ensures !IsWhitespace(c) ==> cp.display == [c]
    ensures cp.generalCategoryAbbr == AbbrName(db.generalCategory(c))
    ensures cp.code == CharCode(c) && cp.categoryColor == CharCategoryColor(db, c) && cp.display == CharDisplay(c)
    ensures cp.age == CharAge(db, c) && cp.name == CharName(db, c)
    ensures cp.generalCategory == db.categoryName(db.generalCategory(c))
    ensures cp.graphemeClusterBreak == db.graphemeClusterBreak(c)
    ensures cp.isAlphabetic == db.alphabetic(c) && cp.isLowercase == db.lowercase(c)
    ensures cp.isUppercase == db.uppercase(c) && cp.isWhiteSpace == db.whiteSpace(c)
  {
    var gc := db.generalCategory(c);
    var code := CharCode(c);
    var color := CharCategoryColor(db, c);
    var display := CharDisplay(c);
    CodePoint(
      CharAge(db, c), color, c, code, display,
      db.categoryName(gc), AbbrName(gc), db.graphemeClusterBreak(c),
      db.alphabetic(c), db.lowercase(c), db.uppercase(c), db.whiteSpace(c),
      CharName(db, c))
  }

  /** The characters a cluster's code points carry, in order. */
  function ClusterText(g: GraphemeCluster): string {
    seq(|g.codePoints|, i requires 0 <= i < |g.codePoints| => g.codePoints[i].character)
  }

  /** The characters of all clusters of a word, in order. */
  function WordText(w: Word): string {
    Concat(seq(|w.graphemeClusters|, i requires 0 <= i < |w.graphemeClusters| => ClusterText(w.graphemeClusters[i])))
  }

  /** The characters of all code points of all words, in order. */
  function Text(words: seq<Word>): string {
    Concat(seq(|words|, i requires 0 <= i < |words| => WordText(words[i])))
  }

  /** The contents of a sequence of words. */
  function Contents(words: seq<Word>): seq<string> {
    seq(|words|, i requires 0 <= i < |words| => words[i].content)
  }

  /**
   * When the word segmenter partitions `s`, the word contents of
   * `unicode_info(s)` concatenate back to `s`; no word is empty.
   */
  lemma UnicodeInfoKeepsContent(db: CharDatabase, s: string)
    requires Partitions(db.words(s), s)
    ensures Concat(Contents(UnicodeInfo(db, s))) == s
    ensures forall w :: w in UnicodeInfo(db, s) ==> w.content != []
  {
    var words := UnicodeInfo(db, s);
    assert Contents(words) == db.words(s);
    forall w | w in words ensures w.content != [] {
      var i :| 0 <= i < |words| && words[i] == w;
    }
  }

  /**
   * When both segmenters partition their input, reading every code point of
   * `unicode_info(s)` in order gives back `s`, and every word has a cluster
   * and every cluster a code point.
   */
  lemma UnicodeInfoKeepsText(db: CharDatabase, s: string)
    requires Partitions(db.words(s), s)
    requires forall w :: w in db.words(s) ==> Partitions(db.graphemes(w), w)
    ensures Text(UnicodeInfo(db, s)) == s
    ensures forall w :: w in UnicodeInfo(db, s) ==> |w.graphemeClusters| > 0
    ensures forall w, g :: w in UnicodeInfo(db, s) && g in w.graphemeClusters ==> |g.codePoints| > 0
  {
    var words := UnicodeInfo(db, s);
    var segments := db.words(s);
    forall i | 0 <= i < |words|
      ensures WordText(words[i]) == segments[i]
      ensures |words[i].graphemeClusters| > 0
      ensures forall g :: g in words[i].graphemeClusters ==> |g.codePoints| > 0
    {
      assert segments[i] in segments;
      WordFromStrKeepsText(db, segments[i]);
    }
    assert seq(|words|, i requires 0 <= i < |words| => WordText(words[i])) == segments;
  }

  /** When the grapheme segmenter partitions `w`, `Word::from_str(w)` holds exactly the characters of `w`. */
  lemma WordFromStrKeepsText(db: CharDatabase, w: string)
    requires Partitions(db.graphemes(w), w)
    ensures WordText(WordFromStr(db, w)) == w
    ensures w != [] ==> |WordFromStr(db, w).graphemeClusters| > 0
    ensures forall g :: g in WordFromStr(db, w).graphemeClusters ==> |g.codePoints| > 0
  {
    var word := WordFromStr(db, w);
    var gcs := db.graphemes(w);
    forall i | 0 <= i < |gcs| ensures ClusterText(word.graphemeClusters[i]) == gcs[i] {
      GraphemeClusterKeepsText(db, gcs[i]);
    }
    assert seq(|word.graphemeClusters|, i requires 0 <= i < |word.graphemeClusters| =>
                ClusterText(word.graphemeClusters[i])) == gcs;
    forall g | g in word.graphemeClusters ensures |g.codePoints| > 0 {
      var i :| 0 <= i < |word.graphemeClusters| && word.graphemeClusters[i] == g;
      assert gcs[i] != [];
    }
  }

  /** A cluster's code points spell its content. */
  lemma GraphemeClusterKeepsText(db: CharDatabase, s: string)
    ensures ClusterText(GraphemeClusterFromStr(db, s)) == s
  {
  }

  // ----- labels of one code point -----

  /** `char_display`: White_Space characters through `escape_default`, everything else as itself. */
  function CharDisplay(c: char): (r: string)
    ensures !IsWhitespace(c) ==> r == [c]
    ensures IsWhitespace(c) ==> IsAscii(r) && (|r| == 1 <==> c == ' ')
  {
    if IsWhitespace(c) then EscapeDefault(c) else [c]
  }

  /**
   * The display form of a White_Space character: `\t`, `\n`, `\r`, a plain
   * space, or `\u{...}` holding its hexadecimal value; always ASCII.
   */
  lemma CharDisplayOfWhitespace(c: char)
    requires IsWhitespace(c)
    ensures IsAscii(CharDisplay(c))
    ensures c == '\t' ==> CharDisplay(c) == "\\t"
    ensures c == '\n' ==> CharDisplay(c) == "\\n"
    ensures c == '\r' ==> CharDisplay(c) == "\\r"
    ensures c == ' ' ==> CharDisplay(c) == " "
    ensures c !in "\t\n\r " ==>
              var r := CharDisplay(c);
              |r| >= 5 && r[..3] == "\\u{" && r[|r| - 1] == '}' && AllDigits(r[3..|r| - 1], 16)
              && ParseDigits(r[3..|r| - 1], 16) == c as int
  {
  }

  /** Two characters never share a display form. */
  lemma CharDisplayInjective(a: char, b: char)
    requires CharDisplay(a) == CharDisplay(b)
    ensures a == b
  {
    if IsWhitespace(a) && IsWhitespace(b) {
      EscapeDefaultInjective(a, b);
    }
  }

  /** `char_name_abbreviations`: the first NameAbbreviations alias, if any. */
  function CharNameAbbreviations(db: CharDatabase, c: char): (r: Option<string>)
    ensures r.Some? <==> db.nameAbbreviations(c).Some?
    ensures r.Some? ==> r.value == db.nameAbbreviations(c).value[0]
  {
    match db.nameAbbreviations(c)
    case Some(abbrs) => Some(abbrs[0])
    case None => None
  }

  /** `char_name`: the Name if there is one, else the first abbreviation, else `<none>`. */
  function CharName(db: CharDatabase, c: char): (r: string)
    ensures db.name(c).Some? ==> r == db.name(c).value
    ensures db.name(c).None? && db.nameAbbreviations(c).Some? ==> r == db.nameAbbreviations(c).value[0]
    ensures db.name(c).None? && db.nameAbbreviations(c).None? ==> r == "<none>"
  {
    db.name(c).OrElse(CharNameAbbreviations(db, c)).UnwrapOr("<none>")
  }

  /** `format!("{}.{}.{}", major, minor, micro)`. */
  function VersionString(v: UnicodeVersion): string {
    ToDigits(v.major, 10, false) + "." + ToDigits(v.minor, 10, false) + "." + ToDigits(v.micro, 10, false)
  }

  /** `char_age`: the version of first assignment as `major.minor.micro`, or `<none>`. */
  function CharAge(db: CharDatabase, c: char): (r: string)
    ensures db.age(c).None? ==> r == "<none>"
    ensures db.age(c).Some? ==> r == VersionString(db.age(c).value)
  {
    if db.age(c).Some? then VersionString(db.age(c).value) else "<none>"
  }

  /** The age label tells every version apart, and tells a known age from an unknown one. */
  lemma CharAgeInjective(db: CharDatabase, c: char, db': CharDatabase, c': char)
    requires CharAge(db, c) == CharAge(db', c')
    ensures db.age(c) == db'.age(c')
  {
    match (db.age(c), db'.age(c'))
    case (Some(v), Some(v')) =>
      VersionStringInjective(v, v');
    case (Some(v), None) =>
      VersionStringStartsWithDigit(v);
    case (None, Some(v')) =>
      VersionStringStartsWithDigit(v');
    case (None, None) =>
  }

  lemma VersionStringStartsWithDigit(v: UnicodeVersion)
    ensures IsDigit(VersionString(v)[0], 10)
  {
    assert VersionString(v)[0] == ToDigits(v.major, 10, false)[0];
  }

  lemma VersionStringInjective(v: UnicodeVersion, v': UnicodeVersion)
    requires VersionString(v) == VersionString(v')
    ensures v == v'
  {
    var a, b, c := ToDigits(v.major, 10, false), ToDigits(v.minor, 10, false), ToDigits(v.micro, 10, false);
    var a', b', c' := ToDigits(v'.major, 10, false), ToDigits(v'.minor, 10, false), ToDigits(v'.micro, 10, false);
    VersionStringRegrouped(v);
    VersionStringRegrouped(v');
    SplitAtDot(a, b + "." + c, a', b' + "." + c');
    SplitAtDot(b, c, b', c');
    ToDigitsInjective(v.major, v'.major, 10, false);
    ToDigitsInjective(v.minor, v'.minor, 10, false);
    ToDigitsInjective(v.micro, v'.micro, 10, false);
  }

  lemma VersionStringRegrouped(v: UnicodeVersion)
    ensures VersionString(v)
            == ToDigits(v.major, 10, false) + "." + (ToDigits(v.minor, 10, false) + "." + ToDigits(v.micro, 10, false))
  {
  }

  /** The position of the first dot in `t`, or `|t|` when there is none. */
  function IndexOfDot(t: string): (k: nat)
    ensures k <= |t|
  {
    if t == [] || t[0] == '.' then 0 else 1 + IndexOfDot(t[1..])
  }

  lemma {:induction false} IndexOfDotAfterNumeral(x: string, r: string)
    requires AllDigits(x, 10)
    ensures IndexOfDot(x + "." + r) == |x|
    decreases |x|
  {
    if x != [] {
      assert IsDigit(x[0], 10);
      assert (x + "." + r)[1..] == x[1..] + "." + r;
      IndexOfDotAfterNumeral(x[1..], r);
    }
  }

  /** Splitting at the first dot: a numeral holds no dot. */
  lemma SplitAtDot(x: string, r: string, y: string, s: string)
    requires AllDigits(x, 10) && AllDigits(y, 10)
    requires x + "." + r == y + "." + s
    ensures x == y && r == s
  {
    IndexOfDotAfterNumeral(x, r);
    IndexOfDotAfterNumeral(y, s);
    assert x == (x + "." + r)[..|x|];
    assert y == (y + "." + s)[..|y|];
    assert r == (x + "." + r)[|x| + 1..];
    assert s == (y + "." + s)[|y| + 1..];
  }

  /** The seven colour names `char_category_color` uses. */
  const Palette: set<string> := {"green", "red", "blue", "orange", "purple", "pink", "grey"}

  /** The colour of each General Category (the `match` of `char_category_color`). */
  function CategoryColor(gc: GeneralCategory): (r: string)
    ensures r in Palette
  {
    match gc
    case UppercaseLetter | LowercaseLetter | TitlecaseLetter | ModifierLetter | OtherLetter => "green"
    case NonspacingMark | SpacingMark | EnclosingMark => "red"
    case DecimalNumber | LetterNumber | OtherNumber => "blue"
    case ConnectorPunctuation | DashPunctuation | OpenPunctuation | ClosePunctuation
       | InitialPunctuation | FinalPunctuation | OtherPunctuation => "orange"
    case MathSymbol | CurrencySymbol | ModifierSymbol | OtherSymbol => "purple"
    case SpaceSeparator | LineSeparator => "pink"
    case ParagraphSeparator => "green"
    case Control => "grey"
    case Format => "grey"
    case Surrogate => "grey"
    case PrivateUse => "grey"
    case Unassigned => "grey"
  }

  /** A colour per major class of General Category. */
  function ClassColor(major: char): string {
    match major
    case 'L' => "green"
    case 'M' => "red"
    case 'N' => "blue"
    case 'P' => "orange"
    case 'S' => "purple"
    case 'Z' => "pink"
    case _ => "grey"
  }

  /**
   * The colours follow the major classes of UAX #44, with one exception:
   * ParagraphSeparator (class Z) is green like the letters.
   */
  lemma CategoryColorByClass(gc: GeneralCategory)
    ensures gc != ParagraphSeparator ==> CategoryColor(gc) == ClassColor(MajorClass(gc))
    ensures gc == ParagraphSeparator ==> CategoryColor(gc) == "green" && MajorClass(gc) == 'Z'
  {
    var a := AbbrName(gc);
    assert MajorClass(gc) == a[0];
  }

  /** `char_category_color`: the colour of the character's General Category. */
  function CharCategoryColor(db: CharDatabase, c: char): (r: string)
    ensures r in Palette
    ensures r == CategoryColor(db.generalCategory(c))
  {
    CategoryColor(db.generalCategory(c))
  }

  /**
   * `char_code`: `format!("U+{:04x}", c as u32).to_ascii_uppercase()`, that is
   * `U+` and the upper-case hexadecimal value, zero-padded to four digits.
   */
  function CharCode(c: char): (r: string)
    ensures r == "U+" + PadLeft(ToDigits(c as int, 16, true), 4, '0')
    ensures |r| >= 6 && r[..2] == "U+" && AllDigits(r[2..], 16) && ParseDigits(r[2..], 16) == c as int
  {
    var n := c as int;
    UppercaseCode(n);
    ParsePadded(n, 16, true, 4);
    var r := ToAsciiUppercase("U+" + ZeroPaddedHex(n, 4));
    assert r[2..] == PadLeft(ToDigits(n, 16, true), 4, '0');
    r
  }

  lemma UppercaseCode(n: nat)
    ensures ToAsciiUppercase("U+" + ZeroPaddedHex(n, 4)) == "U+" + PadLeft(ToDigits(n, 16, true), 4, '0')
  {
    var z := ZeroPaddedHex(n, 4);
    UppercaseConcat("U+", z);
    UppercasePadded(n, 4);
    UppercasePrefix();
  }

  lemma UppercasePrefix()
    ensures ToAsciiUppercase("U+") == "U+"
  {
    assert ToAsciiUppercase("U+")[0] == 'U';
    assert ToAsciiUppercase("U+")[1] == '+';
  }

  lemma UppercasePadded(n: nat, width: nat)
    ensures ToAsciiUppercase(ZeroPaddedHex(n, width)) == PadLeft(ToDigits(n, 16, true), width, '0')
  {
    UppercaseHex(n);
    UppercasePadLeft(ToDigits(n, 16, false), width);
  }

  /** Padding with zeros commutes with upper-casing. */
  lemma UppercasePadLeft(s: string, width: nat)
    ensures ToAsciiUppercase(PadLeft(s, width, '0')) == PadLeft(ToAsciiUppercase(s), width, '0')
  {
    if |s| < width {
      var zeros := Repeat('0', width - |s|);
      UppercaseConcat(zeros, s);
      assert ToAsciiUppercase(zeros) == zeros;
    }
  }

  /** `char_code` is 6, 7 or 8 characters long, depending on how many hexadecimal digits the value needs. */
  lemma CharCodeLength(c: char)
    ensures c as int < 0x1_0000 ==> |CharCode(c)| == 6
    ensures 0x1_0000 <= c as int < 0x10_0000 ==> |CharCode(c)| == 7
    ensures 0x10_0000 <= c as int ==> |CharCode(c)| == 8
  {
    var n := c as int;
    assert Pow(16, 4) == 0x1_0000 by {
      assert Pow(16, 1) == 16;
      assert Pow(16, 2) == 0x100;
      assert Pow(16, 3) == 0x1000;
    }
    assert Pow(16, 5) == 0x10_0000;
    assert Pow(16, 6) == 0x100_0000;
    DigitsLength(n, 16, true, 4);
    DigitsLength(n, 16, true, 5);
    DigitsLength(n, 16, true, 6);
  }

  /** The example of the crate's unit test: U+1F468 MAN is labelled `U+1F468`. */
  lemma CharCodeOfMan()
    ensures CharCode('\U{1F468}') == "U+1F468"
  {
    assert ToDigits(0x1, 16, true) == "1";
    ToDigitsStep(0x1F, 16, true);
    assert ToDigits(0x1F, 16, true) == "1F";
    ToDigitsStep(0x1F4, 16, true);
    assert ToDigits(0x1F4, 16, true) == "1F4";
    ToDigitsStep(0x1F46, 16, true);
    assert ToDigits(0x1F46, 16, true) == "1F46";
    ToDigitsStep(0x1F468, 16, true);
    assert ToDigits(0x1F468, 16, true) == "1F468";
    assert PadLeft("1F468", 4, '0') == "1F468";
  }
}
