/**
 * The console program (src/main.rs): it carries its own copies of the
 * labelling helpers and a `CharInfo` record built from them. Reading the
 * input line and printing the records are not modelled; the helpers and the
 * record are.
 */
module Cli {
  import opened Wrappers
  import opened Numerals
  import opened RustStd
  import opened Unic
  import Lib

  /** The record the program prints for every code point; `character` is the Rust field `char`. */
  datatype CharInfo = CharInfo(
    age: string,
    character: char,
    display: string,
    generalCategory: string,
    graphemeClusterBreak: string,
    isAlphabetic: bool,
    isLowercase: bool,
    isUppercase: bool,
    isWhiteSpace: bool,
    name: string)

  /** `char_display` of the program: White_Space through `escape_default`, the rest as a one-character string. */
  function CharDisplay(c: char): (r: string)
    ensures !IsWhitespace(c) ==> r == [c]
    ensures IsWhitespace(c) ==> IsAscii(r) && (|r| == 1 <==> c == ' ')
  {
    if IsWhitespace(c) then EscapeDefault(c) else [c]
  }

  /** `char_name_abbreviations` of the program: the first NameAbbreviations alias, if any. */
  function CharNameAbbreviations(db: CharDatabase, c: char): (r: Option<string>)
    ensures r.Some? <==> db.nameAbbreviations(c).Some?
    ensures r.Some? ==> r.value == db.nameAbbreviations(c).value[0]
  {
    match db.nameAbbreviations(c)
    case Some(abbrs) => Some(abbrs[0])
    case None => None
  }

  /** `char_name` of the program: the Name, else the first abbreviation, else `<none>`. */
  function CharName(db: CharDatabase, c: char): (r: string)
    ensures db.name(c).Some? ==> r == db.name(c).value
    ensures db.name(c).None? && db.nameAbbreviations(c).Some? ==> r == db.nameAbbreviations(c).value[0]
    ensures db.name(c).None? && db.nameAbbreviations(c).None? ==> r == "<none>"
  {
    db.name(c).OrElse(CharNameAbbreviations(db, c)).UnwrapOr("<none>")
  }

  /** `char_age` of the program: `major.minor.micro` in decimal, or `<none>`. */
  function CharAge(db: CharDatabase, c: char): (r: string)
    ensures db.age(c).None? ==> r == "<none>"
    ensures db.age(c).Some? ==> r == Lib.VersionString(db.age(c).value)
  {
    match db.age(c)
    case Some(v) =>
      ToDigits(v.major, 10, false) + "." + ToDigits(v.minor, 10, false) + "." + ToDigits(v.micro, 10, false)
    case None => "<none>"
  }

  /** `CharInfo::from_char`: the character, its labels from the helpers above and the raw properties. */
  function CharInfoFromChar(db: CharDatabase, c: char): (info: CharInfo)
    ensures info.character == c
    ensures info.display == CharDisplay(c) && info.name == CharName(db, c) && info.age == CharAge(db, c)
    ensures info.generalCategory == db.categoryName(db.generalCategory(c))
    ensures info.graphemeClusterBreak == db.graphemeClusterBreak(c)
    ensures info.isAlphabetic == db.alphabetic(c) && info.isLowercase == db.lowercase(c)
    ensures info.isUppercase == db.uppercase(c) && info.isWhiteSpace == db.whiteSpace(c)
  {
    CharInfo(
      CharAge(db, c), c, CharDisplay(c),
      db.categoryName(db.generalCategory(c)), db.graphemeClusterBreak(c),
      db.alphabetic(c), db.lowercase(c), db.uppercase(c), db.whiteSpace(c),
      CharName(db, c))
  }

  /** The program's helpers compute the same labels as the library's. */
  lemma HelpersAgreeWithLibrary(db: CharDatabase, c: char)
    ensures CharDisplay(c) == Lib.CharDisplay(c)
    ensures CharNameAbbreviations(db, c) == Lib.CharNameAbbreviations(db, c)
    ensures CharName(db, c) == Lib.CharName(db, c)
    ensures CharAge(db, c) == Lib.CharAge(db, c)
  {
  }

  /**
   * A `CharInfo` holds the same labels as the library's `CodePoint` for the
   * same character: the record of the program is the library's record
   * without the code, the colour and the category abbreviation.
   */
  lemma CharInfoAgreesWithCodePoint(db: CharDatabase, c: char)
    ensures var info, cp := CharInfoFromChar(db, c), Lib.CodePointFromChar(db, c);
      info.character == cp.character && info.display == cp.display && info.name == cp.name
      && info.age == cp.age && info.generalCategory == cp.generalCategory
      && info.graphemeClusterBreak == cp.graphemeClusterBreak
      && info.isAlphabetic == cp.isAlphabetic && info.isLowercase == cp.isLowercase
      && info.isUppercase == cp.isUppercase && info.isWhiteSpace == cp.isWhiteSpace
  {
  }

  /** Two characters whose records show the same display form are the same character. */
  lemma CharInfoDisplayInjective(db: CharDatabase, a: char, b: char)
    requires CharInfoFromChar(db, a).display == CharInfoFromChar(db, b).display
    ensures a == b
  {
    Lib.CharDisplayInjective(a, b);
  }
}
