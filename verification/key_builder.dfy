/** Construction of histogram names from the declared key fields of the
    event header: each present scalar field is rendered and followed by the
    separator `'_'`, then a module-specific suffix is appended. */
module KeyBuilder {
  import opened Wrappers
  import opened Text
  import opened Event

  const Separator: char := '_'

  /** The rendering of a scalar property (`ostream <<` of the fetched value). */
  function Render(p: Property): string
    requires !p.Vector?
  {
    match p
    case Flag(b) => BoolToString(b)
    case Integer(i) => IntToString(i)
    case Real(_, rendered) => rendered
    case Text(s) => s
  }

  /** What one declared field adds to the key: nothing when it is absent
      from the header or vector-valued. */
  function Piece(field: string, header: Header): string {
    if field in header && !header[field].Vector? then Render(header[field]) + [Separator] else ""
  }

  /** What each declared field adds, in declared order. */
  function Pieces(fields: seq<string>, header: Header): (ps: seq<string>)
    ensures |ps| == |fields|
  {
    seq(|fields|, i requires 0 <= i < |fields| => Piece(fields[i], header))
  }

  function Concat(parts: seq<string>): string
    decreases |parts|
  {
    if |parts| == 0 then "" else Concat(parts[..|parts| - 1]) + parts[|parts| - 1]
  }

  /** The key fields, rendered in their declared order. */
  function FieldPart(fields: seq<string>, header: Header): string {
    Concat(Pieces(fields, header))
  }

  lemma {:induction false} ConcatAppend(a: seq<string>, b: seq<string>)
    ensures Concat(a + b) == Concat(a) + Concat(b)
    decreases |b|
  {
    if |b| == 0 {
      assert a + b == a;
    } else {
      var ab := a + b;
      assert ab[..|ab| - 1] == a + b[..|b| - 1];
      ConcatAppend(a, b[..|b| - 1]);
    }
  }

  /** A run of pieces each empty or ending in the separator concatenates to
      a string that is empty or ends in the separator. */
  lemma {:induction false} ConcatEndsWithSeparator(parts: seq<string>)
    requires forall i :: 0 <= i < |parts| ==> |parts[i]| == 0 || parts[i][|parts[i]| - 1] == Separator
    ensures var r := Concat(parts); |r| == 0 || r[|r| - 1] == Separator
    decreases |parts|
  {
    if |parts| > 0 {
      ConcatEndsWithSeparator(parts[..|parts| - 1]);
    }
  }

  /** The field part of a key is empty or ends in the separator. */
  lemma FieldPartEndsWithSeparator(fields: seq<string>, header: Header)
    ensures var r := FieldPart(fields, header); |r| == 0 || r[|r| - 1] == Separator
  {
    ConcatEndsWithSeparator(Pieces(fields, header));
  }

  /** `"<n>e-<m>e+<k>u"` */
  function MultiplicitySuffix(m: Multiplicity): string {
    NatToString(m.electrons) + "e-" + NatToString(m.positrons) + "e+" + NatToString(m.undefined) + "u"
  }

  /** Histogram name used by the half-life module for an event. */
  function ChargeKey(fields: seq<string>, header: Header, m: Multiplicity): string {
    FieldPart(fields, header) + MultiplicitySuffix(m)
  }

  /** Histogram name used by the energy accumulator for an event. */
  function EnergyKey(fields: seq<string>, header: Header): string {
    FieldPart(fields, header) + "energy"
  }

  /** Field lists render piecewise: the key of a concatenation of field
      lists is the concatenation of their keys, so each field contributes in
      its declared position. */
  lemma FieldPartAppend(a: seq<string>, b: seq<string>, header: Header)
    ensures FieldPart(a + b, header) == FieldPart(a, header) + FieldPart(b, header)
  {
    assert Pieces(a + b, header) == Pieces(a, header) + Pieces(b, header);
    ConcatAppend(Pieces(a, header), Pieces(b, header));
  }

  /** A single field contributes its rendering and a separator when it is a
      present scalar, and nothing otherwise. */
  lemma FieldPartSingle(f: string, header: Header)
    ensures f in header && !header[f].Vector? ==> FieldPart([f], header) == Render(header[f]) + "_"
    ensures f !in header || header[f].Vector? ==> FieldPart([f], header) == ""
  {
    var p := Piece(f, header);
    assert Pieces([f], header) == [p];
    assert [p][..0] == [];
    assert Concat([p]) == Concat([]) + p;
    assert "" + p == p;
    assert FieldPart([f], header) == p;
  }

  /** Inserting an absent or vector-valued field anywhere in the field list
      leaves the key unchanged. */
  lemma SkippedFieldIsInvisible(a: seq<string>, f: string, b: seq<string>, header: Header)
    requires f !in header || header[f].Vector?
    ensures FieldPart(a + [f] + b, header) == FieldPart(a + b, header)
  {
    FieldPartAppend(a + [f], b, header);
    FieldPartAppend(a, [f], header);
    FieldPartSingle(f, header);
    FieldPartAppend(a, b, header);
  }

  /** Splits a trailing decimal number off `s`. */
  function SplitCount(s: string): Option<(string, nat)> {
    var k := TrailingDigits(s);
    if k == 0 then None else Some((s[..|s| - k], ParseNat(s[|s| - k..])))
  }

  lemma SplitRendered(p: string, n: nat)
    requires |p| == 0 || !IsDigit(p[|p| - 1])
    ensures SplitCount(p + NatToString(n)) == Some((p, n))
  {
    var d := NatToString(n);
    TrailingDigitsOfAppend(p, d);
    assert (p + d)[..|p + d| - |d|] == p;
    assert (p + d)[|p + d| - |d|..] == d;
    ParseRendered(n);
  }

  /** Strips `tag` and then a decimal count from the end of `s`. */
  function PopCount(s: string, tag: string): Option<(string, nat)> {
    if EndsWith(s, tag) then SplitCount(s[..|s| - |tag|]) else None
  }

  lemma PopCountRendered(p: string, n: nat, tag: string)
    requires |p| == 0 || !IsDigit(p[|p| - 1])
    ensures PopCount(p + NatToString(n) + tag, tag) == Some((p, n))
  {
    var s := p + NatToString(n) + tag;
    assert s[|s| - |tag|..] == tag;
    assert s[..|s| - |tag|] == p + NatToString(n);
    SplitRendered(p, n);
  }

  /** Reads the field part and the charge multiplicity back out of a
      half-life histogram name. */
  function DecodeChargeKey(key: string): Option<(string, Multiplicity)> {
    match PopCount(key, "u")
    case None => None
    case Some((a, nu)) =>
      match PopCount(a, "e+")
      case None => None
      case Some((b, np)) =>
        match PopCount(b, "e-")
        case None => None
        case Some((f, ne)) =>
          if |f| == 0 || f[|f| - 1] == Separator then Some((f, Multiplicity(ne, np, nu))) else None
  }

  /** The decoder's three stages, taken one at a time. */
  lemma DecodeFromPops(key: string, a: string, b: string, f: string, m: Multiplicity)
    requires PopCount(key, "u") == Some((a, m.undefined))
    requires PopCount(a, "e+") == Some((b, m.positrons))
    requires PopCount(b, "e-") == Some((f, m.electrons))
    requires |f| == 0 || f[|f| - 1] == Separator
    ensures DecodeChargeKey(key) == Some((f, m))
  {
  }

  /** A field part followed by a multiplicity suffix decodes to both. */
  lemma DecodeSuffixed(f: string, m: Multiplicity)
    requires |f| == 0 || f[|f| - 1] == Separator
    ensures DecodeChargeKey(f + MultiplicitySuffix(m)) == Some((f, m))
  {
    var b := f + NatToString(m.electrons) + "e-";
    var a := b + NatToString(m.positrons) + "e+";
    var key := a + NatToString(m.undefined) + "u";
    assert f + MultiplicitySuffix(m) == key;
    PopCountRendered(a, m.undefined, "u");
    PopCountRendered(b, m.positrons, "e+");
    PopCountRendered(f, m.electrons, "e-");
    DecodeFromPops(key, a, b, f, m);
  }

  /** Every half-life histogram name decodes to the field part and the
      multiplicities it was built from. */
  lemma DecodeChargeKeyRoundTrip(fields: seq<string>, header: Header, m: Multiplicity)
    ensures DecodeChargeKey(ChargeKey(fields, header, m)) == Some((FieldPart(fields, header), m))
  {
    FieldPartEndsWithSeparator(fields, header);
    DecodeSuffixed(FieldPart(fields, header), m);
  }

  /** The energy accumulator's names never collide with the half-life
      module's: they end in `'y'`, not `'u'`, and do not decode. */
  lemma NameSpacesDisjoint(fields: seq<string>, header: Header, m: Multiplicity, fields': seq<string>, header': Header)
    ensures ChargeKey(fields, header, m) != EnergyKey(fields', header')
    ensures DecodeChargeKey(EnergyKey(fields', header')).None?
  {
    var k := ChargeKey(fields, header, m);
    var e := EnergyKey(fields', header');
    assert k[|k| - 1] == 'u';
    assert e[|e| - 1] == 'y';
  }
}
