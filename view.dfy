/**
 * The yew front end (src/view.rs): the root component lays out the grapheme
 * clusters of a fixed string, a cluster component shows every code point of
 * its cluster as UTF-8 bytes and UTF-16 code units, and a bytes component
 * shows each byte or unit in hexadecimal.
 */
module View {
  import opened Wrappers
  import opened Numerals
  import opened RustStd
  import opened Encoding
  import opened Unic

  // ----- Byte::formatted -----

  /** `format!("{:#04x}", b)`: `0x` and exactly two lower-case hexadecimal digits. */
  function FormatU8(b: u8): (r: string)
    ensures |r| == 4 && r[..2] == "0x"
    ensures AllDigits(r[2..], 16) && NoUpperLetters(r[2..]) && ParseDigits(r[2..], 16) == b as int
  {
    assert Pow(16, 2) == 0x100 by {
      assert Pow(16, 1) == 16;
    }
    AlternateHex(b as nat, 4)
  }

  /** `format!("{:#06x}", u)`: `0x` and exactly four lower-case hexadecimal digits. */
  function FormatU16(u: u16): (r: string)
    ensures |r| == 6 && r[..2] == "0x"
    ensures AllDigits(r[2..], 16) && NoUpperLetters(r[2..]) && ParseDigits(r[2..], 16) == u as int
  {
    assert Pow(16, 4) == 0x1_0000 by {
      assert Pow(16, 1) == 16;
      assert Pow(16, 2) == 0x100;
      assert Pow(16, 3) == 0x1000;
    }
    AlternateHex(u as nat, 6)
  }

  /** Different bytes are shown differently. */
  lemma FormatU8Injective(a: u8, b: u8)
    requires FormatU8(a) == FormatU8(b)
    ensures a == b
  {
    assert FormatU8(a)[2..] == FormatU8(b)[2..];
  }

  /** Different code units are shown differently. */
  lemma FormatU16Injective(a: u16, b: u16)
    requires FormatU16(a) == FormatU16(b)
    ensures a == b
  {
    assert FormatU16(a)[2..] == FormatU16(b)[2..];
  }

  // ----- the code-point buffers of the cluster view -----

  /**
   * `char::encode_utf8` into a buffer of at least `len_utf8` bytes: the
   * first `len_utf8` entries get the UTF-8 form, the rest is untouched.
   */
  method EncodeUtf8Into(c: char, buf: array<u8>)
    requires buf.Length >= Utf8Length(c as int)
    modifies buf
    ensures buf[..Utf8Length(c as int)] == EncodeUtf8(c as int)
    ensures buf[Utf8Length(c as int)..] == old(buf[Utf8Length(c as int)..])
  {
    var cp := c as int;
    if cp < 0x80 {
      buf[0] := cp as u8;
    } else if cp < 0x800 {
      buf[0] := (0xC0 + cp / 0x40) as u8;
      buf[1] := (0x80 + cp % 0x40) as u8;
    } else if cp < 0x1_0000 {
      buf[0] := (0xE0 + cp / 0x1000) as u8;
      buf[1] := (0x80 + cp / 0x40 % 0x40) as u8;
      buf[2] := (0x80 + cp % 0x40) as u8;
    } else {
      buf[0] := (0xF0 + cp / 0x4_0000) as u8;
      buf[1] := (0x80 + cp / 0x1000 % 0x40) as u8;
      buf[2] := (0x80 + cp / 0x40 % 0x40) as u8;
      buf[3] := (0x80 + cp % 0x40) as u8;
    }
  }

  /**
   * `char::encode_utf16` into a buffer of at least `len_utf16` units: the
   * first `len_utf16` entries get the UTF-16 form, the rest is untouched.
   */
  method EncodeUtf16Into(c: char, buf: array<u16>)
    requires buf.Length >= Utf16Length(c as int)
    modifies buf
    ensures buf[..Utf16Length(c as int)] == EncodeUtf16(c as int)
    ensures buf[Utf16Length(c as int)..] == old(buf[Utf16Length(c as int)..])
  {
    var cp := c as int;
    if cp < 0x1_0000 {
      buf[0] := cp as u16;
    } else {
      buf[0] := (0xD800 + (cp - 0x1_0000) / 0x400) as u16;
      buf[1] := (0xDC00 + (cp - 0x1_0000) % 0x400) as u16;
    }
  }

  /**
   * The two buffers the cluster view builds for one code point: zeroed
   * vectors of `len_utf8` and `len_utf16` entries, filled by the encoders.
   * They hold exactly the UTF-8 and UTF-16 forms, and each decodes back to
   * the code point.
   */
  method CodePointBuffers(c: char) returns (utf8: seq<u8>, utf16: seq<u16>)
    ensures utf8 == EncodeUtf8(c as int) && |utf8| == Utf8Length(c as int)
    ensures utf16 == EncodeUtf16(c as int) && |utf16| == Utf16Length(c as int)
    ensures DecodeUtf8(utf8) == Some(c as int) && DecodeUtf16(utf16) == Some(c as int)
  {
    var bytes := new u8[Utf8Length(c as int)](_ => 0);
    EncodeUtf8Into(c, bytes);
    utf8 := bytes[..];
    var units := new u16[Utf16Length(c as int)](_ => 0);
    EncodeUtf16Into(c, units);
    utf16 := units[..];
    Utf8RoundTrip(c as int);
    Utf16RoundTrip(c as int);
  }

  /** What the cluster view hands to its two bytes components for one code point. */
  datatype CodePointRow = CodePointRow(utf8: seq<u8>, utf16: seq<u16>)

  /** The rows of a cluster: one per `char`, in order. */
  function ClusterRows(s: string): (rows: seq<CodePointRow>)
    ensures |rows| == |s|
  {
    seq(|s|, i requires 0 <= i < |s| => CodePointRow(EncodeUtf8(s[i] as int), EncodeUtf16(s[i] as int)))
  }

  /** Every row of a cluster decodes back to the `char` it stands for. */
  lemma ClusterRowsDecode(s: string, i: nat)
    requires i < |s|
    ensures DecodeUtf8(ClusterRows(s)[i].utf8) == Some(s[i] as int)
    ensures DecodeUtf16(ClusterRows(s)[i].utf16) == Some(s[i] as int)
  {
    Utf8RoundTrip(s[i] as int);
    Utf16RoundTrip(s[i] as int);
  }

  /** Rows of a cluster tell their characters apart: two clusters with the same rows are the same string. */
  lemma ClusterRowsInjective(s: string, t: string)
    requires ClusterRows(s) == ClusterRows(t)
    ensures s == t
  {
    forall i | 0 <= i < |s|
      ensures s[i] == t[i]
    {
      ClusterRowsDecode(s, i);
      ClusterRowsDecode(t, i);
    }
  }

  // ----- the components -----

  /** `grapheme_cluster::Props`. */
  datatype ClusterProps = ClusterProps(graphemeCluster: string)

  /** `grapheme_cluster::Component`: a component holding its props. */
  class GraphemeClusterComponent {
    var props: ClusterProps

    /** `create`: the component keeps the props it is given. */
    constructor (props: ClusterProps)
      ensures this.props == props
    {
      this.props := props;
    }

    /** `update`: no message changes anything, and nothing is re-rendered. */
    method Update() returns (shouldRender: bool)
      ensures !shouldRender
    {
      shouldRender := false;
    }

    /** `change`: the new props replace the old ones; a render is asked for exactly when they differ. */
    method Change(props: ClusterProps) returns (shouldRender: bool)
      modifies this
      ensures shouldRender <==> old(this.props) != props
      ensures this.props == props
    {
      if this.props != props {
        this.props := props;
        shouldRender := true;
      } else {
        shouldRender := false;
      }
    }

    /**
     * `view`: the cluster's text, then one row per code point in order,
     * built by a loop over the cluster's `char`s.
     */
    method View() returns (text: string, rows: seq<CodePointRow>)
      ensures text == props.graphemeCluster
      ensures rows == ClusterRows(props.graphemeCluster)
      ensures forall i :: 0 <= i < |rows| ==> DecodeUtf8(rows[i].utf8) == Some(text[i] as int)
    {
      text := props.graphemeCluster;
      rows := [];
      var i := 0;
      while i < |text|
        invariant 0 <= i <= |text|
        invariant rows == ClusterRows(text)[..i]
      {
        var utf8, utf16 := CodePointBuffers(text[i]);
        rows := rows + [CodePointRow(utf8, utf16)];
        i := i + 1;
      }
      assert rows == ClusterRows(text);
      forall i | 0 <= i < |rows|
        ensures DecodeUtf8(rows[i].utf8) == Some(text[i] as int)
      {
        ClusterRowsDecode(text, i);
      }
    }
  }

  /** A second `change` with the same props asks for no render and leaves the props as they are. */
  method ChangeTwice(component: GraphemeClusterComponent, props: ClusterProps)
    returns (first: bool, second: bool)
    modifies component
    ensures first <==> old(component.props) != props
    ensures !second && component.props == props
  {
    first := component.Change(props);
    second := component.Change(props);
  }

  /** `BytesComponentProps`. */
  datatype BytesProps<B> = BytesProps(bytes: seq<B>)

  /** `BytesComponent<B>`: a component holding a sequence of bytes or code units. */
  class BytesComponent<B(==)> {
    var props: BytesProps<B>

    /** `create`: the component keeps the props it is given. */
    constructor (props: BytesProps<B>)
      ensures this.props == props
    {
      this.props := props;
    }

    /** `update`: no message changes anything, and nothing is re-rendered. */
    method Update() returns (shouldRender: bool)
      ensures !shouldRender
    {
      shouldRender := false;
    }

    /** `change`: the new props replace the old ones; a render is asked for exactly when they differ. */
    method Change(props: BytesProps<B>) returns (shouldRender: bool)
      modifies this
      ensures shouldRender <==> old(this.props) != props
      ensures this.props == props
    {
      if this.props != props {
        this.props := props;
        shouldRender := true;
      } else {
        shouldRender := false;
      }
    }

    /** `view`: one cell per byte, in order, each holding `formatted` of its byte. */
    function View(formatted: B -> string): (cells: seq<string>)
      reads this
      ensures |cells| == |props.bytes|
      ensures forall i :: 0 <= i < |cells| ==> cells[i] == formatted(props.bytes[i])
    {
      var bytes := props.bytes;
      seq(|bytes|, i requires 0 <= i < |bytes| => formatted(bytes[i]))
    }
  }

  /** The cells of a UTF-8 bytes component are four characters each and read back as its bytes. */
  lemma Utf8CellsReadBack(component: BytesComponent<u8>, i: nat)
    requires i < |component.props.bytes|
    ensures var cell := component.View(FormatU8)[i];
      |cell| == 4 && ParseDigits(cell[2..], 16) == component.props.bytes[i] as int
  {
  }

  /** Two UTF-16 components show the same cells exactly when they hold the same units. */
  lemma Utf16CellsInjective(a: BytesComponent<u16>, b: BytesComponent<u16>)
    requires a.View(FormatU16) == b.View(FormatU16)
    ensures a.props == b.props
  {
    var x, y := a.props.bytes, b.props.bytes;
    assert |x| == |y|;
    forall i | 0 <= i < |x|
      ensures x[i] == y[i]
    {
      assert a.View(FormatU16)[i] == b.View(FormatU16)[i];
      FormatU16Injective(x[i], y[i]);
    }
  }

  // ----- the root component -----

  /** The string the root component shows: "Denmark" and the flag of Denmark (two regional indicators). */
  const Sample: string := "Denmark \U{1F1E9}\U{1F1F0}"

  /** `App`: a component without state. */
  class App {
    constructor ()
    {
    }

    /** `update`: nothing is re-rendered. */
    method Update() returns (shouldRender: bool)
      ensures !shouldRender
    {
      shouldRender := false;
    }

    /** `change`: nothing is re-rendered. */
    method Change() returns (shouldRender: bool)
      ensures !shouldRender
    {
      shouldRender := false;
    }
  }

  /** `App::view`: the props of one cluster component per grapheme cluster of the sample, in order. */
  function RootView(db: CharDatabase): (children: seq<ClusterProps>)
    ensures |children| == |db.graphemes(Sample)|
    ensures forall i :: 0 <= i < |children| ==> children[i].graphemeCluster == db.graphemes(Sample)[i]
  {
    var clusters := db.graphemes(Sample);
    seq(|clusters|, i requires 0 <= i < |clusters| => ClusterProps(clusters[i]))
  }

  /** When the segmenter partitions the sample, the clusters the root shows spell out the sample. */
  lemma RootViewShowsSample(db: CharDatabase)
    requires Partitions(db.graphemes(Sample), Sample)
    ensures ConcatClusters(RootView(db)) == Sample
  {
    ConcatClustersOf(db.graphemes(Sample));
  }

  function ConcatClusters(children: seq<ClusterProps>): string {
    if children == [] then [] else children[0].graphemeCluster + ConcatClusters(children[1..])
  }

  lemma {:induction false} ConcatClustersOf(clusters: seq<string>)
    ensures ConcatClusters(seq(|clusters|, i requires 0 <= i < |clusters| => ClusterProps(clusters[i])))
            == Concat(clusters)
  {
    if clusters != [] {
      var children := seq(|clusters|, i requires 0 <= i < |clusters| => ClusterProps(clusters[i]));
      ConcatClustersOf(clusters[1..]);
      assert children[1..] == seq(|clusters[1..]|, i requires 0 <= i < |clusters[1..]| => ClusterProps(clusters[1..][i]));
    }
  }
}
