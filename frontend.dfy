/**
 * The React front end (www/index.tsx): a textarea whose text is explored
 * word by word, a "Random" button that loads a different example, and an
 * "Add code-point" button that inserts a character typed in hexadecimal at
 * the caret. Every change of the text is mirrored into the page URL
 * (`?q=...`) and the document title.
 */
module Frontend {
  import opened Wrappers
  import opened Numerals
  import opened Encoding
  import opened EcmaScript
  import opened Unic
  import Lib

  // ----- insertAtCursor -----

  /**
   * The value `insertAtCursor` writes: with a selection (a `selectionStart`
   * that is a number, zero included) the text before the start, the
   * insertion, and the text from the end on (`selectionEnd || 0`); without
   * one, the insertion appended.
   */
  function InsertedValue(value: JsString, selectionStart: Option<int>, selectionEnd: Option<int>, ins: JsString)
    : (r: JsString)
    ensures selectionStart.None? ==> |r| == |value| + |ins| && r[..|value|] == value && r[|value|..] == ins
    ensures selectionStart.Some? ==>
              var at := Clamp(selectionStart.value, |value|);
              at + |ins| <= |r| && r[..at] == value[..at] && r[at..at + |ins|] == ins
  {
    match selectionStart
    case Some(start) =>
      var end := if selectionEnd.Some? then selectionEnd.value else 0;
      Substring(value, 0, start) + ins + Substring(value, end, |value|)
    case None => value + ins
  }

  /**
   * With a selection inside the text, the selected units are replaced by the
   * insertion: the prefix before the start and the suffix from the end are
   * kept, and the length changes by the insertion minus the selection.
   */
  lemma InsertReplacesSelection(value: JsString, start: int, end: int, ins: JsString)
    requires 0 <= start <= end <= |value|
    ensures var r := InsertedValue(value, Some(start), Some(end), ins);
      r == value[..start] + ins + value[end..]
      && r[..start] == value[..start] && r[start..start + |ins|] == ins && r[start + |ins|..] == value[end..]
      && |r| == |value| - (end - start) + |ins|
  {
    var r := InsertedValue(value, Some(start), Some(end), ins);
    assert Substring(value, 0, start) == value[..start];
    assert Substring(value, end, |value|) == value[end..];
    assert r == value[..start] + ins + value[end..];
    assert r[..start] == value[..start];
    assert r[start..start + |ins|] == ins;
    assert r[start + |ins|..] == value[end..];
  }

  /** With a caret and no selection, the insertion lands at the caret and nothing is lost. */
  lemma InsertAtCaret(value: JsString, caret: int, ins: JsString)
    requires 0 <= caret <= |value|
    ensures InsertedValue(value, Some(caret), Some(caret), ins) == value[..caret] + ins + value[caret..]
    ensures |InsertedValue(value, Some(caret), Some(caret), ins)| == |value| + |ins|
  {
    InsertReplacesSelection(value, caret, caret, ins);
  }

  /** Without a selection, the insertion is appended. */
  lemma InsertWithoutSelection(value: JsString, selectionEnd: Option<int>, ins: JsString)
    ensures InsertedValue(value, None, selectionEnd, ins) == value + ins
    ensures |InsertedValue(value, None, selectionEnd, ins)| == |value| + |ins|
    ensures InsertedValue(value, None, selectionEnd, ins)[..|value|] == value
  {
    assert (value + ins)[..|value|] == value;
  }

  /** A selection that starts at 0 is a selection, not a missing one: the text is not appended to. */
  lemma InsertAtStart(value: JsString, ins: JsString)
    ensures InsertedValue(value, Some(0), Some(0), ins) == ins + value
  {
    InsertReplacesSelection(value, 0, 0, ins);
    assert value[..0] == [] && value[0..] == value;
  }

  /** The `<textarea>` element: its text and its selection (`null` where it has none). */
  class TextArea {
    var value: JsString
    var selectionStart: Option<int>
    var selectionEnd: Option<int>

    constructor (value: JsString, selectionStart: Option<int>, selectionEnd: Option<int>)
      ensures this.value == value && this.selectionStart == selectionStart && this.selectionEnd == selectionEnd
    {
      this.value := value;
      this.selectionStart := selectionStart;
      this.selectionEnd := selectionEnd;
    }

    /**
     * Writing `value`: when the text changes, the HTML Standard moves the
     * caret to the end of the new text and drops the selection.
     */
    method SetValue(v: JsString)
      modifies this
      ensures value == v
      ensures v != old(value) ==> selectionStart == Some(|v|) && selectionEnd == Some(|v|)
      ensures v == old(value) ==> selectionStart == old(selectionStart) && selectionEnd == old(selectionEnd)
    {
      if v != value {
        value := v;
        selectionStart := Some(|v|);
        selectionEnd := Some(|v|);
      }
    }

    /** `insertAtCursor(textArea, ins)`. */
    method InsertAtCursor(ins: JsString)
      modifies this
      ensures value == InsertedValue(old(value), old(selectionStart), old(selectionEnd), ins)
      ensures value != old(value) ==> selectionStart == Some(|value|) && selectionEnd == Some(|value|)
      ensures value == old(value) ==> selectionStart == old(selectionStart) && selectionEnd == old(selectionEnd)
    {
      if selectionStart.Some? {
        var startPos := selectionStart.value;
        var endPos := selectionEnd;
        var end := if endPos.Some? then endPos.value else 0;
        SetValue(Substring(value, 0, startPos) + ins + Substring(value, end, |value|));
      } else {
        SetValue(value + ins);
      }
    }
  }

  // ----- randomChoice and randomAndDifferentChoice -----

  /** A value `Math.random()` can return. */
  type Random = u: real | 0.0 <= u < 1.0

  /** `Math.floor(u * n)`: for `n > 0` an index of a sequence of length `n`. */
  function RandomIndex(u: Random, n: nat): (i: int)
    ensures n > 0 ==> 0 <= i < n
    ensures n == 0 ==> i == 0
  {
    var x := u * n as real;
    ScaleBelow(u, n as real);
    x.Floor
  }

  /** Scaling by a factor in `[0, 1)` keeps a non-negative real below itself, or at zero. */
  lemma ScaleBelow(u: real, m: real)
    requires 0.0 <= u < 1.0 && 0.0 <= m
    ensures 0.0 <= u * m
    ensures m > 0.0 ==> u * m < m
  {
    assert m - u * m == (1.0 - u) * m;
    if m > 0.0 {
      assert (1.0 - u) * m > 0.0;
    }
  }

  /** `randomChoice(xs)`: the entry at the drawn index; `undefined` (here `None`) for an empty array. */
  function RandomChoice<T>(xs: seq<T>, u: Random): (r: Option<T>)
    ensures r.Some? <==> |xs| > 0
    ensures r.Some? ==> r.value in xs
  {
    if |xs| == 0 then None else Some(xs[RandomIndex(u, |xs|)])
  }

  /** Every entry can be drawn: the draw `i / n` picks entry `i`. */
  lemma EveryEntryCanBeDrawn<T>(xs: seq<T>, i: nat)
    requires i < |xs|
    ensures var u := i as real / |xs| as real;
      0.0 <= u < 1.0 && RandomChoice(xs, u) == Some(xs[i])
  {
    var n := |xs| as real;
    var u := i as real / n;
    assert u * n == i as real;
    assert (i as real).Floor == i;
    assert RandomIndex(u, |xs|) == i;
  }

  /** What the do-while loop comes to: the entry it returns, or `OutOfDraws` while it would still be drawing. */
  datatype Outcome<T> = Returned(value: Option<T>) | OutOfDraws

  /**
   * The outcome of `randomAndDifferentChoice(xs, curr)` on a sequence of
   * draws: the first draw that is accepted, where a draw is refused only
   * when `xs` has more than one entry and the draw equals `curr`.
   */
  function FirstAccepted<T(==)>(xs: seq<T>, curr: T, draws: seq<Random>): (r: Outcome<T>)
    ensures r.Returned? ==> (r.value.Some? <==> |xs| > 0)
    ensures r.OutOfDraws? ==> draws == [] || |xs| > 1
    decreases |draws|
  {
    if draws == [] then OutOfDraws
    else
      var x := RandomChoice(xs, draws[0]);
      if |xs| > 1 && x == Some(curr) then FirstAccepted(xs, curr, draws[1..]) else Returned(x)
  }

  /** `randomAndDifferentChoice`: the do-while loop, drawing from `draws` in order. */
  method RandomAndDifferentChoice<T(==)>(xs: seq<T>, curr: T, draws: seq<Random>) returns (r: Outcome<T>)
    ensures r == FirstAccepted(xs, curr, draws)
  {
    var k := 0;
    while k < |draws|
      invariant 0 <= k <= |draws|
      invariant FirstAccepted(xs, curr, draws) == FirstAccepted(xs, curr, draws[k..])
    {
      var x := RandomChoice(xs, draws[k]);
      assert draws[k..][1..] == draws[k + 1..];
      k := k + 1;
      if !(|xs| > 1 && x == Some(curr)) {
        return Returned(x);
      }
    }
    r := OutOfDraws;
  }

  /**
   * What a returned entry is: an entry of a non-empty `xs`, one different
   * from `curr` when `xs` has more than one entry, and the only entry
   * (even if it is `curr`) when it has one.
   */
  lemma {:induction false} FirstAcceptedIsDifferent<T>(xs: seq<T>, curr: T, draws: seq<Random>)
    requires FirstAccepted(xs, curr, draws).Returned?
    ensures var v := FirstAccepted(xs, curr, draws).value;
      (|xs| == 0 <==> v.None?)
      && (v.Some? ==> v.value in xs)
      && (|xs| > 1 ==> v.value != curr)
      && (|xs| == 1 ==> v == Some(xs[0]))
    decreases |draws|
  {
    var x := RandomChoice(xs, draws[0]);
    if |xs| > 1 && x == Some(curr) {
      FirstAcceptedIsDifferent(xs, curr, draws[1..]);
    } else if |xs| == 1 {
      assert RandomIndex(draws[0], 1) == 0;
    }
  }

  /** With at most one entry the loop stops after the first draw. */
  lemma SingleDrawSuffices<T>(xs: seq<T>, curr: T, draws: seq<Random>)
    requires |xs| <= 1 && draws != []
    ensures FirstAccepted(xs, curr, draws) == Returned(RandomChoice(xs, draws[0]))
  {
  }

  /** The loop stops at the latest at the first draw that picks an entry other than `curr`. */
  lemma {:induction false} StopsAtDifferentDraw<T>(xs: seq<T>, curr: T, draws: seq<Random>, k: nat)
    requires k < |draws| && RandomChoice(xs, draws[k]) != Some(curr)
    ensures FirstAccepted(xs, curr, draws).Returned?
    decreases k
  {
    if k > 0 && |xs| > 1 && RandomChoice(xs, draws[0]) == Some(curr) {
      assert draws[1..][k - 1] == draws[k];
      StopsAtDifferentDraw(xs, curr, draws[1..], k - 1);
    }
  }

  // ----- promptForCodePoint -----

  /**
   * `promptForCodePoint()` on what `window.prompt` returned: `null` for a
   * cancelled or empty answer, for one `parseInt(·, 16)` finds no number in,
   * and for a number `String.fromCodePoint` refuses; otherwise the string
   * of that code point.
   */
  function PromptForCodePoint(input: Option<JsString>): (r: Option<JsString>)
    ensures input.None? || input.value == [] ==> r.None?
    ensures r.Some? ==> (|r.value| == 1 || |r.value| == 2) && DecodeUtf16(r.value).Some?
  {
    if input.None? || input.value == [] then None
    else
      match ParseIntHex(input.value)
      case None => None
      case Some(n) => FromCodePoint(n)
  }

  /** The hexadecimal numeral of a code point, in either case, gives that code point. */
  lemma PromptAcceptsNumeral(cp: int, upper: bool)
    requires IsCodePoint(cp)
    ensures PromptForCodePoint(Some(ToJs(ToDigits(cp, 16, upper)))) == Some(EncodeUtf16(cp))
  {
    ParseIntOfNumeral(cp, upper);
  }

  /**
   * Any answer in which parseInt finds no digit gives nothing: white space,
   * then an optional sign, then an optional `0x`/`0X`, then no hexadecimal
   * digit (as in ` U+2764`, `-U+2764`, `+`, `0x` or `0xg`).
   */
  lemma PromptRejectsNoDigits(w: JsString, sg: JsString, pre: JsString, rest: JsString)
    requires forall i :: 0 <= i < |w| ==> IsStrWhiteSpace(w[i])
    requires sg == [] || sg == [Plus] || sg == [Minus]
    requires pre == [] || pre == [0x30, 0x78] || pre == [0x30, 0x58]
    requires sg == [] && pre == [] && rest != [] ==> !IsStrWhiteSpace(rest[0]) && rest[0] != Minus && rest[0] != Plus
    requires rest == [] || UnitDigitValue(rest[0]) >= 16
    ensures PromptForCodePoint(Some(w + sg + pre + rest)) == None
  {
    assert rest != [] ==> rest[0] != 0x30 by {
      assert UnitDigitValue(0x30) == 0;
    }
    ParseIntHexForm(w, sg, pre, rest);
  }

  /** The numeral of a value above U+10FFFF gives nothing. */
  lemma PromptRejectsAboveRange(n: nat, upper: bool)
    requires n >= 0x11_0000
    ensures PromptForCodePoint(Some(ToJs(ToDigits(n, 16, upper)))) == None
  {
    ParseIntOfNumeral(n, upper);
  }

  /** A negative numeral gives nothing. */
  lemma PromptRejectsNegative(n: nat)
    requires n > 0
    ensures PromptForCodePoint(Some([Minus] + ToJs(ToDigits(n, 16, false)))) == None
  {
    ParseIntOfNumeral(n, false);
  }

  /** The example input `2764` gives U+2764 HEAVY BLACK HEART. */
  lemma PromptAccepts2764()
    ensures PromptForCodePoint(Some(ToJs("2764"))) == Some([0x2764])
  {
    var s := "2764";
    assert s == ToDigits(0x2764, 16, false) by {
      assert ToDigits(0x2764, 16, false) == ToDigits(0x276, 16, false) + ['4'];
      assert ToDigits(0x276, 16, false) == ToDigits(0x27, 16, false) + ['6'];
      assert ToDigits(0x27, 16, false) == ToDigits(0x2, 16, false) + ['7'];
    }
    PromptAcceptsNumeral(0x2764, false);
  }

  /**
   * The prompt's other example, `U+2764`, gives nothing: `U` is no
   * hexadecimal digit, so `parseInt` is NaN. Every code label the explorer
   * shows (`U+XXXX`) is refused the same way.
   */
  lemma PromptRejectsCharCode(c: char)
    ensures PromptForCodePoint(Some(ToJs(Lib.CharCode(c)))) == None
  {
    var code := Lib.CharCode(c);
    assert code[0] == 'U';
    LeadingUnit(code);
    ParseIntLeadingU(ToJs(code));
  }

  /** `parseInt(t, 16)` is NaN when `t` starts with `U`. */
  lemma ParseIntLeadingU(t: JsString)
    requires t != [] && t[0] == 0x55
    ensures ParseIntHex(t) == None
  {
    assert UnitDigitValue(0x55) == 30;
    ParseIntNoDigit(t);
  }

  /** A string that starts with a BMP character starts, in JavaScript, with that code unit. */
  lemma LeadingUnit(s: string)
    requires s != [] && (s[0] as int) < 0x1_0000
    ensures ToJs(s) != [] && ToJs(s)[0] as int == s[0] as int
  {
    assert ToJs(s) == EncodeUtf16(s[0] as int) + ToJs(s[1..]);
  }

  /** The prompt text's `U+2764` is one of those labels. */
  lemma PromptRejectsUPlus2764()
    ensures PromptForCodePoint(Some(ToJs("U+2764"))) == None
  {
    LeadingUnit("U+2764");
    ParseIntLeadingU(ToJs("U+2764"));
  }

  // ----- the URL and the title -----

  /** `"?q=" + encodeURIComponent(v)`: the URL handed to `history.replaceState`; `None` when encoding throws. */
  function UrlFor(v: JsString): (r: Option<JsString>)
    ensures r.Some? <==> WellFormed(v)
    ensures r.Some? ==> |r.value| >= 3 && r.value[..3] == ToJs("?q=")
  {
    EncodeDefinedIffWellFormed(v);
    ToJsAscii("?q=");
    match EncodeURIComponent(v)
    case Some(e) => Some(ToJs("?q=") + e)
    case None => None
  }

  /** The query of the URL carries the text without loss: decoding it gives the text back. */
  lemma UrlCarriesText(v: JsString)
    requires WellFormed(v)
    ensures DecodeURIComponent(UrlFor(v).value[3..]) == Some(v)
  {
    EncodeDefinedIffWellFormed(v);
    DecodeEncode(v);
    assert |ToJs("?q=")| == 3;
    assert UrlFor(v).value[3..] == EncodeURIComponent(v).value;
  }

  /** Different texts get different URLs. */
  lemma UrlInjective(v: JsString, w: JsString)
    requires UrlFor(v).Some? && UrlFor(v) == UrlFor(w)
    ensures v == w
  {
    UrlCarriesText(v);
    UrlCarriesText(w);
  }

  /**
   * The code units of the title's fixed part, the template literal's
   * `unicode.fyi –\u00A0`: `unicode.fyi`, a space, the en dash U+2013 and
   * the no-break space U+00A0.
   */
  const TitlePrefix: JsString :=
    [0x75, 0x6E, 0x69, 0x63, 0x6F, 0x64, 0x65, 0x2E, 0x66, 0x79, 0x69, 0x20, 0x2013, 0xA0]

  /** Units 0 to 11 spell `unicode.fyi ` in ASCII; unit 12 is the en dash and unit 13 the no-break space. */
  lemma TitlePrefixSpelling()
    ensures |TitlePrefix| == 14
    ensures forall i :: 0 <= i < 12 ==> TitlePrefix[i] as int == "unicode.fyi "[i] as int
    ensures TitlePrefix[12] as int == '\U{2013}' as int && TitlePrefix[13] as int == '\U{00A0}' as int
  {
  }

  /** The document title: the prefix above, then the text. */
  function TitleFor(v: JsString): (r: JsString)
    ensures |r| == 14 + |v| && r[..14] == TitlePrefix && r[14..] == v
  {
    TitlePrefix + v
  }

  // ----- the rendered parts that depend on the state -----

  /** The `value` attribute the textarea is rendered with: the text while it is forced, `undefined` otherwise. */
  function TextAreaValueProp(inputValue: JsString, forceInput: bool): (r: Option<JsString>)
    ensures r.Some? <==> forceInput
    ensures r.Some? ==> r.value == inputValue
  {
    if forceInput then Some(inputValue) else None
  }

  /**
   * The Rust string wasm-bindgen passes for a JS string: each code point in
   * order, a lone surrogate turned into U+FFFD.
   */
  function ToRustString(s: JsString): (r: string)
    ensures |r| <= |s| && (r == [] <==> s == [])
    decreases |s|
  {
    if s == [] then []
    else
      var cp := CodePointAt(s, 0);
      var c := if cp.isUnpairedSurrogate then '\U{FFFD}' else cp.codePoint as char;
      [c] + ToRustString(s[cp.codeUnitCount..])
  }

  /** A JS string built from a Rust string converts back to it. */
  lemma {:induction false} ToRustStringOfToJs(s: string)
    ensures ToRustString(ToJs(s)) == s
    decreases |s|
  {
    if s != [] {
      var t := ToJs(s);
      var e := EncodeUtf16(s[0] as int);
      assert t == e + ToJs(s[1..]);
      var cp := CodePointAt(t, 0);
      assert cp.codeUnitCount == |e| by {
        if |e| == 1 {
          assert !IsHighSurrogate(t[0] as int);
        } else {
          assert IsLowSurrogate(t[1] as int);
        }
      }
      assert t[..cp.codeUnitCount] == e;
      Utf16Canonical(e, cp.codePoint);
      assert t[cp.codeUnitCount..] == ToJs(s[1..]);
      ToRustStringOfToJs(s[1..]);
      Utf16RoundTrip(s[0] as int);
      assert cp.codePoint == s[0] as int;
    }
  }

  /** A well-formed JS string survives the trip to Rust and back unchanged. */
  lemma {:induction false} ToJsOfToRustString(s: JsString)
    requires WellFormed(s)
    ensures ToJs(ToRustString(s)) == s
    decreases |s|
  {
    if s != [] {
      var cp := CodePointAt(s, 0);
      var k := cp.codeUnitCount;
      assert !cp.isUnpairedSurrogate && WellFormed(s[k..]);
      ToJsOfToRustString(s[k..]);
      var c := cp.codePoint as char;
      var rest := ToRustString(s[k..]);
      assert ToRustString(s) == [c] + rest;
      ToJsCons(c, rest);
      assert EncodeUtf16(c as int) == s[..k];
      assert ToJs(ToRustString(s)) == s[..k] + s[k..];
      SplitAt(s, k);
    }
  }

  /** The String value of a character followed by a string. */
  lemma ToJsCons(c: char, rest: string)
    ensures ToJs([c] + rest) == EncodeUtf16(c as int) + ToJs(rest)
  {
    assert ([c] + rest)[0] == c;
    assert ([c] + rest)[1..] == rest;
  }

  /** `ExploreSection`: nothing for an empty text, otherwise the words of `unicode_info`. */
  function ExploreSection(db: CharDatabase, v: JsString): (r: Option<seq<Lib.Word>>)
    ensures r.None? <==> v == []
  {
    if v == [] then None else Some(Lib.UnicodeInfo(db, ToRustString(v)))
  }

  /**
   * For a well-formed text, and segmenters that partition their input, the
   * explorer shows every code point of the text, in order.
   */
  lemma ExploreSectionShowsText(db: CharDatabase, v: JsString)
    requires v != [] && WellFormed(v)
    requires Partitions(db.words(ToRustString(v)), ToRustString(v))
    requires forall w :: w in db.words(ToRustString(v)) ==> Partitions(db.graphemes(w), w)
    ensures ToJs(Lib.Text(ExploreSection(db, v).value)) == v
  {
    Lib.UnicodeInfoKeepsText(db, ToRustString(v));
    ToJsOfToRustString(v);
  }

  // ----- the JSON the components read -----

  /** The fields the `CodePoint` interface declares. */
  const CodePointInterfaceFields: seq<string> :=
    ["age", "category", "category_abbr", "category_color", "char", "code", "display",
     "grapheme_cluster_break", "is_alphabetic", "is_lowercase", "is_uppercase", "is_white_space", "name"]

  /**
   * The interface and the serialised object disagree on two names: the
   * interface's `category` and `category_abbr` are never present (so the
   * card's abbreviation slot, an `undefined` child, renders empty), and the object's
   * `general_category` and `general_category_abbr` are never read.
   */
  lemma InterfaceFieldMismatch(cp: Lib.CodePoint)
    ensures "category" !in Lib.SerializeCodePoint(cp) && "category_abbr" !in Lib.SerializeCodePoint(cp)
    ensures "general_category" !in CodePointInterfaceFields && "general_category_abbr" !in CodePointInterfaceFields
  {
    // Told apart by length: no serialised name has eight characters and the only one with
    // thirteen starts with `i`; no interface name has sixteen or twenty-one.
    assert forall i :: 0 <= i < |Lib.CodePointFieldNames| ==>
      |Lib.CodePointFieldNames[i]| != 8 && (|Lib.CodePointFieldNames[i]| == 13 ==> Lib.CodePointFieldNames[i][0] == 'i');
    assert forall i :: 0 <= i < |CodePointInterfaceFields| ==>
      |CodePointInterfaceFields[i]| != 16 && |CodePointInterfaceFields[i]| != 21;
  }

  /** Every other field the interface declares is present in the serialised object. */
  lemma InterfaceSharedFields(cp: Lib.CodePoint)
    ensures forall i :: 0 <= i < |CodePointInterfaceFields| && i != 1 && i != 2
                        ==> CodePointInterfaceFields[i] in Lib.SerializeCodePoint(cp)
  {
  }

  // ----- App -----

  /** The `App` component's state and the parts of the page its handlers write. */
  class App {
    var inputValue: JsString
    var forceInput: bool
    /** The URL last handed to `history.replaceState`; `None` while the loaded URL stands. */
    var url: Option<JsString>
    /** The title text last written; `None` while the document's own title stands. */
    var title: Option<JsString>
    /** The catalog `examples`: a fixed, non-empty array literal. */
    const examples: seq<JsString>
    /** Whether the document has a `<title>` element for `setInputValueInTitle` to write. */
    const hasTitleElement: bool

    /** `setInputValueInUrl`: writes the URL, or throws (`false`) when the text has a lone surrogate. */
    method SetInputValueInUrl(v: JsString) returns (ok: bool)
      modifies this
      ensures ok <==> UrlFor(v).Some?
      ensures url == if ok then UrlFor(v) else old(url)
      ensures inputValue == old(inputValue) && forceInput == old(forceInput) && title == old(title)
    {
      var u := UrlFor(v);
      ok := u.Some?;
      if ok {
        url := u;
      }
    }

    /** `setInputValueInTitle`: writes the title when there is a title element. */
    method SetInputValueInTitle(v: JsString)
      modifies this
      ensures title == if hasTitleElement then Some(TitleFor(v)) else old(title)
      ensures inputValue == old(inputValue) && forceInput == old(forceInput) && url == old(url)
    {
      if hasTitleElement {
        title := Some(TitleFor(v));
      }
    }

    /**
     * The constructor: the text is the `q` parameter, or empty when there is
     * none or it is empty; nothing is forced; the title follows the text.
     * The catalog it draws from is never empty.
     */
    constructor (query: Option<JsString>, examples: seq<JsString>, hasTitleElement: bool)
      requires |examples| > 0
      ensures inputValue == query.UnwrapOr([]) && !forceInput
      ensures url == None && title == if hasTitleElement then Some(TitleFor(inputValue)) else None
      ensures this.examples == examples && this.hasTitleElement == hasTitleElement
    {
      inputValue := if query.Some? && query.value != [] then query.value else [];
      forceInput := false;
      url := None;
      this.examples := examples;
      this.hasTitleElement := hasTitleElement;
      new;
      title := None;
      SetInputValueInTitle(inputValue);
    }

    /**
     * `onInput(v)`: URL, title and text follow `v`, and the textarea is no
     * longer forced. When `v` holds a lone surrogate, encoding the URL
     * throws and nothing changes.
     */
    method OnInput(v: JsString) returns (ok: bool)
      modifies this
      ensures ok <==> WellFormed(v)
      ensures ok ==> inputValue == v && !forceInput && url == UrlFor(v)
                     && title == (if hasTitleElement then Some(TitleFor(v)) else old(title))
      ensures !ok ==> inputValue == old(inputValue) && forceInput == old(forceInput)
                      && url == old(url) && title == old(title)
    {
      ok := SetInputValueInUrl(v);
      if ok {
        SetInputValueInTitle(v);
        inputValue := v;
        forceInput := false;
      }
    }

    /**
     * `onShuffleClick()`: draws an example different from the current text
     * and forces the textarea to show it, with URL and title following. When
     * the draws run out first, the loop would still be running and nothing
     * has changed.
     */
    method OnShuffleClick(draws: seq<Random>) returns (outcome: Outcome<JsString>)
      requires |examples| > 0
      modifies this
      ensures outcome == FirstAccepted(examples, old(inputValue), draws)
      ensures outcome.Returned? ==> outcome.value.Some? && outcome.value.value in examples
      ensures outcome.Returned? && outcome.value.Some? && WellFormed(outcome.value.value) ==>
                inputValue == outcome.value.value && forceInput && url == UrlFor(inputValue)
                && title == (if hasTitleElement then Some(TitleFor(inputValue)) else old(title))
      ensures !(outcome.Returned? && outcome.value.Some? && WellFormed(outcome.value.value)) ==>
                inputValue == old(inputValue) && forceInput == old(forceInput)
                && url == old(url) && title == old(title)
    {
      outcome := RandomAndDifferentChoice(examples, inputValue, draws);
      if outcome.Returned? {
        FirstAcceptedIsDifferent(examples, inputValue, draws);
      }
      if outcome.Returned? && outcome.value.Some? {
        var example := outcome.value.value;
        var ok := SetInputValueInUrl(example);
        if ok {
          SetInputValueInTitle(example);
          inputValue := example;
          forceInput := true;
        }
      }
    }

    /**
     * `onAddClick()`: without a textarea, or when the prompt gives nothing,
     * nothing changes. Otherwise the character is inserted at the caret, then
     * URL, title and text follow the textarea's new value, and `forceInput`
     * stays as it was. A lone surrogate makes the URL step throw after the
     * textarea was already changed. The caret stays put when the value does,
     * and moves to the end of a changed value.
     */
    method OnAddClick(textArea: TextArea?, input: Option<JsString>) returns (ok: bool)
      modifies this, textArea
      ensures textArea == null || PromptForCodePoint(input).None? ==>
                !ok && inputValue == old(inputValue) && url == old(url) && title == old(title)
                && (textArea != null ==> textArea.value == old(textArea.value))
      ensures textArea != null && PromptForCodePoint(input).Some? ==>
                textArea.value == InsertedValue(old(textArea.value), old(textArea.selectionStart),
                                                old(textArea.selectionEnd), PromptForCodePoint(input).value)
                && (ok <==> WellFormed(textArea.value))
      ensures ok ==> inputValue == textArea.value && url == UrlFor(inputValue)
                     && title == (if hasTitleElement then Some(TitleFor(inputValue)) else old(title))
      ensures !ok ==> inputValue == old(inputValue) && url == old(url) && title == old(title)
      ensures forceInput == old(forceInput)
      ensures textArea != null && textArea.value == old(textArea.value) ==>
                textArea.selectionStart == old(textArea.selectionStart)
                && textArea.selectionEnd == old(textArea.selectionEnd)
      ensures textArea != null && textArea.value != old(textArea.value) ==>
                textArea.selectionStart == Some(|textArea.value|) && textArea.selectionEnd == Some(|textArea.value|)
    {
      ok := false;
      if textArea == null {
        return;
      }
      var inserted := PromptForCodePoint(input);
      if inserted.None? {
        return;
      }
      textArea.InsertAtCursor(inserted.value);
      ok := SetInputValueInUrl(textArea.value);
      if ok {
        SetInputValueInTitle(textArea.value);
        inputValue := textArea.value;
      }
    }
  }

  /** After a shuffle the textarea is rendered with the example; after typing it is left to the user. */
  method ShuffleThenType(app: App, draws: seq<Random>, typed: JsString) returns (forcedValue: Option<JsString>, freeValue: Option<JsString>)
    requires WellFormed(typed) && |app.examples| > 0
    modifies app
    ensures var outcome := FirstAccepted(app.examples, old(app.inputValue), draws);
      outcome.Returned? && outcome.value.Some? && WellFormed(outcome.value.value) ==> forcedValue == Some(outcome.value.value)
    ensures freeValue == None && app.inputValue == typed
  {
    var outcome := app.OnShuffleClick(draws);
    forcedValue := TextAreaValueProp(app.inputValue, app.forceInput);
    var ok := app.OnInput(typed);
    freeValue := TextAreaValueProp(app.inputValue, app.forceInput);
  }
}
