/**
 * What the crate sees of the `unic` library: the General Category values
 * with their short names, the character-property lookups and the UAX #29
 * segmenters. The lookups and segmenters are data, a `CharDatabase` value
 * handed to every function that needs it; nothing is taken for granted about them
 * except where a lemma says so in its `requires`.
 */
module Unic {
  import opened Wrappers

  /** The 30 values of the Unicode General_Category property (`unic_ucd::GeneralCategory`). */
  datatype GeneralCategory =
    | UppercaseLetter | LowercaseLetter | TitlecaseLetter | ModifierLetter | OtherLetter
    | NonspacingMark | SpacingMark | EnclosingMark
    | DecimalNumber | LetterNumber | OtherNumber
    | ConnectorPunctuation | DashPunctuation | OpenPunctuation | ClosePunctuation
    | InitialPunctuation | FinalPunctuation | OtherPunctuation
    | MathSymbol | CurrencySymbol | ModifierSymbol | OtherSymbol
    | SpaceSeparator | LineSeparator | ParagraphSeparator
    | Control | Format | Surrogate | PrivateUse | Unassigned

  /** `GeneralCategory::abbr_name`: the short property-value alias of UAX #44 (`Lu`, `Mn`, ...). */
  function AbbrName(gc: GeneralCategory): (r: string)
    ensures |r| == 2
  {
    match gc
    case UppercaseLetter => "Lu"
    case LowercaseLetter => "Ll"
    case TitlecaseLetter => "Lt"
    case ModifierLetter => "Lm"
    case OtherLetter => "Lo"
    case NonspacingMark => "Mn"
    case SpacingMark => "Mc"
    case EnclosingMark => "Me"
    case DecimalNumber => "Nd"
    case LetterNumber => "Nl"
    case OtherNumber => "No"
    case ConnectorPunctuation => "Pc"
    case DashPunctuation => "Pd"
    case OpenPunctuation => "Ps"
    case ClosePunctuation => "Pe"
    case InitialPunctuation => "Pi"
    case FinalPunctuation => "Pf"
    case OtherPunctuation => "Po"
    case MathSymbol => "Sm"
    case CurrencySymbol => "Sc"
    case ModifierSymbol => "Sk"
    case OtherSymbol => "So"
    case SpaceSeparator => "Zs"
    case LineSeparator => "Zl"
    case ParagraphSeparator => "Zp"
    case Control => "Cc"
    case Format => "Cf"
    case Surrogate => "Cs"
    case PrivateUse => "Co"
    case Unassigned => "Cn"
  }

  /** The major class of a category (`L`, `M`, `N`, `P`, `S`, `Z` or `C`): the first letter of its short name. */
  function MajorClass(gc: GeneralCategory): (c: char)
    ensures c in "LMNPSZC"
  {
    AbbrName(gc)[0]
  }

  /** A Unicode version as `Age::of(c).map(|a| a.actual())` gives it. */
  datatype UnicodeVersion = UnicodeVersion(major: nat, minor: nat, micro: nat)

  /** The alias list `name_aliases_of` returns: the table never holds an empty one. */
  type AliasList = s: seq<string> | |s| > 0 witness [""]

  /** The lookups and segmenters of `unic`, as data. */
  datatype CharDatabase = CharDatabase(
    name: char -> Option<string>,                  // Name::of(c), displayed
    nameAbbreviations: char -> Option<AliasList>,  // name_aliases_of(c, NameAliasType::NameAbbreviations)
    age: char -> Option<UnicodeVersion>,           // Age::of(c).map(|a| a.actual())
    generalCategory: char -> GeneralCategory,      // GeneralCategory::of(c)
    categoryName: GeneralCategory -> string,       // GeneralCategory's Display
    graphemeClusterBreak: char -> string,          // GraphemeClusterBreak::of(c), displayed
    alphabetic: char -> bool,                      // Alphabetic::of(c)
    lowercase: char -> bool,                       // Lowercase::of(c)
    uppercase: char -> bool,                       // Uppercase::of(c)
    whiteSpace: char -> bool,                      // WhiteSpace::of(c)
    words: string -> seq<string>,                  // the segments unic_segment::Words visits, before its filter
    graphemes: string -> seq<string>)              // unic_segment::Graphemes::new(s)

  function Concat(parts: seq<string>): string {
    if parts == [] then [] else parts[0] + Concat(parts[1..])
  }

  /**
   * What sections 3 and 4 of Unicode Standard Annex #29 promise of a
   * segmenter's output: non-empty pieces that, in order, make up the input.
   */
  predicate Partitions(parts: seq<string>, s: string) {
    Concat(parts) == s && forall i :: 0 <= i < |parts| ==> parts[i] != []
  }
}
