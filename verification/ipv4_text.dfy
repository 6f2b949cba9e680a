/**
 * The dotted-decimal text of an IPv4 address or netmask: four decimal numbers
 * joined by '.', as "%d.%d.%d.%d" writes them and as `split("\\.")` reads them.
 */
module Ipv4Text {
  import opened JavaLang

  /** Four octets as "%d.%d.%d.%d". */
  function DottedQuad(o: seq<Byte>): (s: string)
    requires |o| == 4
  {
    IntToDecimal(o[0]) + "." + IntToDecimal(o[1]) + "." + IntToDecimal(o[2]) + "." + IntToDecimal(o[3])
  }

  /** Reads "%d.%d.%d.%d" back: four pieces, each a number in 0..255. */
  function ParseDottedQuad(s: string): (r: Option<seq<Byte>>)
    ensures r.Some? ==> |r.value| == 4
  {
    var parts := JavaSplit(s, '.');
    if |parts| != 4 then None
    else match (ParseInt(parts[0]), ParseInt(parts[1]), ParseInt(parts[2]), ParseInt(parts[3]))
      case (Some(a), Some(b), Some(c), Some(d)) =>
        if 0 <= a < 0x100 && 0 <= b < 0x100 && 0 <= c < 0x100 && 0 <= d < 0x100
        then Some([a, b, c, d]) else None
      case _ => None
  }

  /** Splitting the dotted text on '.' gives the four decimal pieces. */
  lemma DottedQuadSplit(o: seq<Byte>)
    requires |o| == 4
    ensures JavaSplit(DottedQuad(o), '.')
      == [IntToDecimal(o[0]), IntToDecimal(o[1]), IntToDecimal(o[2]), IntToDecimal(o[3])]
  {
    var a, b, c, d := IntToDecimal(o[0]), IntToDecimal(o[1]), IntToDecimal(o[2]), IntToDecimal(o[3]);
    var parts := [a, b, c, d];
    assert Join(parts[3..], '.') == d;
    assert Join(parts[2..], '.') == c + ['.'] + d;
    assert Join(parts[1..], '.') == b + ['.'] + (c + ['.'] + d);
    assert DottedQuad(o) == Join(parts, '.');
    SplitAllJoin(parts, '.');
    assert DottedQuad(o)[|a|] == '.';
    assert DropTrailingEmpty([a, b, c, d]) == [a, b, c, d];
  }

  /** Reading the dotted text back gives the four octets. */
  lemma DottedQuadRoundTrip(o: seq<Byte>)
    requires |o| == 4
    ensures ParseDottedQuad(DottedQuad(o)) == Some(o)
  {
    DottedQuadSplit(o);
    ParseIntOfDecimal(o[0]);
    ParseIntOfDecimal(o[1]);
    ParseIntOfDecimal(o[2]);
    ParseIntOfDecimal(o[3]);
    assert [o[0], o[1], o[2], o[3]] == o;
  }
}
