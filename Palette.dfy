/**
 * The fixed, ordered table of rain-rate bands and the decoding of each band's
 * `#rrggbb` colour into an RGB triple (timeline.py, lines 8-27).
 */
module Palette {
  import opened Wrappers

  /** An 8-bit colour channel. */
  type Byte = x: int | 0 <= x < 256

  datatype Rgb = Rgb(r: Byte, g: Byte, b: Byte)

  /** A rain-rate band: its rain-rate label (mm/hr) and its reference colour as written in the table. */
  datatype Band = Band(rate: string, hex: string)

  /** The bands in table order; every positional vector later in the pipeline follows this order. */
  const Bands: seq<Band> := [
    Band(">300", "#ed00f0"),
    Band("200-300", "#c3006a"),
    Band("150-200", "#dc0201"),
    Band("100-150", "#f00000"),
    Band("75-100", "#ed8202"),
    Band("50-75", "#eeb000"),
    Band("30-50", "#fada04"),
    Band("15-30", "#e1cf00"),
    Band("10-15", "#8fff00"),
    Band("7-10", "#01f908"),
    Band("5-7", "#01f808"),
    Band("3-5", "#00d002"),
    Band("2-3", "#01a835"),
    Band("1-2", "#008448"),
    Band("0.50-1", "#3b96ff"),
    Band("0.15-0.50", "#008ff5")
  ]

  const NumBands: nat := 16

  /** The value of one hexadecimal digit, either case, as `int(_, 16)` reads it. */
  function HexDigit(c: char): (r: Option<nat>)
    ensures r.Some? <==> ('0' <= c <= '9' || 'a' <= c <= 'f' || 'A' <= c <= 'F')
    ensures r.Some? ==> r.value < 16
  {
    if '0' <= c <= '9' then Some(c as int - '0' as int)
    else if 'a' <= c <= 'f' then Some(c as int - 'a' as int + 10)
    else if 'A' <= c <= 'F' then Some(c as int - 'A' as int + 10)
    else None
  }

  /** The byte written by the two hexadecimal digits `hi lo`. */
  function HexPair(hi: char, lo: char): (r: Option<Byte>)
    ensures r.Some? <==> HexDigit(hi).Some? && HexDigit(lo).Some?
    ensures r.Some? ==> r.value == 16 * HexDigit(hi).value + HexDigit(lo).value
  {
    match (HexDigit(hi), HexDigit(lo))
    case (Some(h), Some(l)) => Some(16 * h + l)
    case _ => None
  }

  /**
   * Decodes `#rrggbb`: the channels are read from the character pairs at
   * positions 1, 3 and 5, in that order. The leading character is not checked.
   */
  function DecodeHex(s: string): (r: Option<Rgb>)
    ensures r.Some? ==> |s| >= 7
    ensures r.Some? ==>
      && Some(r.value.r) == HexPair(s[1], s[2])
      && Some(r.value.g) == HexPair(s[3], s[4])
      && Some(r.value.b) == HexPair(s[5], s[6])
    ensures r.None? ==>
      |s| < 7 || HexPair(s[1], s[2]).None? || HexPair(s[3], s[4]).None? || HexPair(s[5], s[6]).None?
  {
    if |s| < 7 then None
    else
      match (HexPair(s[1], s[2]), HexPair(s[3], s[4]), HexPair(s[5], s[6]))
      case (Some(r), Some(g), Some(b)) => Some(Rgb(r, g, b))
      case _ => None
  }

  /** The lower-case digit for a value below 16. */
  function HexChar(n: nat): (c: char)
    requires n < 16
    ensures HexDigit(c) == Some(n)
    ensures '0' <= c <= '9' || 'a' <= c <= 'f'
  {
    if n < 10 then ('0' as int + n) as char else ('a' as int + n - 10) as char
  }

  /** The canonical lower-case `#rrggbb` spelling of a colour, the inverse of DecodeHex. */
  function EncodeHex(c: Rgb): (s: string)
    ensures |s| == 7 && s[0] == '#'
  {
    ['#', HexChar(c.r / 16), HexChar(c.r % 16), HexChar(c.g / 16), HexChar(c.g % 16),
     HexChar(c.b / 16), HexChar(c.b % 16)]
  }

  lemma DecodeEncode(c: Rgb)
    ensures DecodeHex(EncodeHex(c)) == Some(c)
  {
    var s := EncodeHex(c);
    assert HexPair(s[1], s[2]) == Some(c.r);
    assert HexPair(s[3], s[4]) == Some(c.g);
    assert HexPair(s[5], s[6]) == Some(c.b);
  }

  /**
   * The dictionary comprehension of line 27: every band's colour decoded, in
   * table order; None when some entry is not a well-formed colour.
   */
  function DecodeTable(bands: seq<Band>): (r: Option<seq<Rgb>>)
    ensures r.Some? <==> forall i :: 0 <= i < |bands| ==> DecodeHex(bands[i].hex).Some?
    ensures r.Some? ==> |r.value| == |bands|
    ensures r.Some? ==> forall i :: 0 <= i < |bands| ==> DecodeHex(bands[i].hex) == Some(r.value[i])
  {
    if bands == [] then Some([])
    else
      var front := DecodeTable(bands[..|bands| - 1]);
      var last := DecodeHex(bands[|bands| - 1].hex);
      if front.Some? && last.Some? then Some(front.value + [last.value])
      else
        assert front.None? ==> exists i :: 0 <= i < |bands| - 1 && DecodeHex(bands[i].hex).None?;
        None
  }

  /** The channels of the sixteen table entries, in table order. */
  const TableRgb: seq<Rgb> := [
    Rgb(237, 0, 240), Rgb(195, 0, 106), Rgb(220, 2, 1), Rgb(240, 0, 0),
    Rgb(237, 130, 2), Rgb(238, 176, 0), Rgb(250, 218, 4), Rgb(225, 207, 0),
    Rgb(143, 255, 0), Rgb(1, 249, 8), Rgb(1, 248, 8), Rgb(0, 208, 2),
    Rgb(1, 168, 53), Rgb(0, 132, 72), Rgb(59, 150, 255), Rgb(0, 143, 245)]

  /** Every entry of the table is a well-formed colour, and decodes to the channels above. */
  lemma TableDecodes()
    ensures DecodeTable(Bands) == Some(TableRgb)
  {
    EntriesDecode0();
    EntriesDecode1();
    EntriesDecode2();
    EntriesDecode3();
    var r := DecodeTable(Bands);
    assert r.Some?;
    assert r.value == TableRgb;
  }

  /** Entries 0 to 3 of the table decode to their channels in TableRgb. */
  lemma EntriesDecode0()
    ensures forall k :: 0 <= k < 4 ==> DecodeHex(Bands[k].hex) == Some(TableRgb[k])
  {
    assert DecodeHex(Bands[0].hex) == Some(TableRgb[0]);
    assert DecodeHex(Bands[1].hex) == Some(TableRgb[1]);
    assert DecodeHex(Bands[2].hex) == Some(TableRgb[2]);
    assert DecodeHex(Bands[3].hex) == Some(TableRgb[3]);
  }

  /** Entries 4 to 7 of the table decode to their channels in TableRgb. */
  lemma EntriesDecode1()
    ensures forall k :: 4 <= k < 8 ==> DecodeHex(Bands[k].hex) == Some(TableRgb[k])
  {
    assert DecodeHex(Bands[4].hex) == Some(TableRgb[4]);
    assert DecodeHex(Bands[5].hex) == Some(TableRgb[5]);
    assert DecodeHex(Bands[6].hex) == Some(TableRgb[6]);
    assert DecodeHex(Bands[7].hex) == Some(TableRgb[7]);
  }

  /** Entries 8 to 11 of the table decode to their channels in TableRgb. */
  lemma EntriesDecode2()
    ensures forall k :: 8 <= k < 12 ==> DecodeHex(Bands[k].hex) == Some(TableRgb[k])
  {
    assert DecodeHex(Bands[8].hex) == Some(TableRgb[8]);
    assert DecodeHex(Bands[9].hex) == Some(TableRgb[9]);
    assert DecodeHex(Bands[10].hex) == Some(TableRgb[10]);
    assert DecodeHex(Bands[11].hex) == Some(TableRgb[11]);
  }

  /** Entries 12 to 15 of the table decode to their channels in TableRgb. */
  lemma EntriesDecode3()
    ensures forall k :: 12 <= k < 16 ==> DecodeHex(Bands[k].hex) == Some(TableRgb[k])
  {
    assert DecodeHex(Bands[12].hex) == Some(TableRgb[12]);
    assert DecodeHex(Bands[13].hex) == Some(TableRgb[13]);
    assert DecodeHex(Bands[14].hex) == Some(TableRgb[14]);
    assert DecodeHex(Bands[15].hex) == Some(TableRgb[15]);
  }
}
