/** What a schema says about bytes: the set of byte strings each declaration describes. */
module Wire {
  import opened Bytes
  import opened Schema

  /** The tag of an enum variant: `width` little-endian bytes of the discriminant
      in two's complement. */
  function TagBytes(width: u8, discriminant: i64): (b: seq<byte>)
    ensures |b| == width
  {
    Pow256Values();
    LittleEndian(width, discriminant % Pow256(8))
  }

  /** A length can be written in a `width`-byte prefix (or needs none). */
  predicate Representable(width: u8, n: nat) {
    width > 0 ==> n < Pow256(width)
  }

  /** `b` is one encoding of `d`, by a derivation of height at most `h`. */
  ghost predicate Matches(s: Container, d: Declaration, b: seq<byte>, h: nat)
    decreases h, 3, 0
  {
    && h > 0
    && d in s.definitions
    && match s.definitions[d]
       case Primitive(size) => |b| == size
       case Sequence(width, start, end, elements) =>
         exists n: nat :: start <= n <= end && IsSequence(s, width, n, elements, b, h)
       case Enum(tagWidth, variants) =>
         exists i :: 0 <= i < |variants| && IsVariant(s, tagWidth, variants[i], b, h)
       case Tuple(members) => MatchesRow(s, members, b, h - 1)
       case Struct(fields) => MatchesRow(s, FieldTypes(fields), b, h - 1)
  }

  /** A length prefix, when there is one, and then `n` encodings of `elements`. */
  ghost predicate IsSequence(s: Container, width: u8, n: nat, elements: Declaration, b: seq<byte>, h: nat)
    requires h > 0
    decreases h, 2, 0
  {
    && Representable(width, n)
    && |b| >= width
    && b[..width] == LittleEndian(width, n)
    && MatchesTimes(s, elements, n, b[width..], h - 1)
  }

  /** The variant's tag and then one encoding of its payload. */
  ghost predicate IsVariant(s: Container, tagWidth: u8, variant: (i64, string, Declaration), b: seq<byte>, h: nat)
    requires h > 0
    decreases h, 2, 0
  {
    && |b| >= tagWidth
    && b[..tagWidth] == TagBytes(tagWidth, variant.0)
    && Matches(s, variant.2, b[tagWidth..], h - 1)
  }

  ghost predicate MatchesTimes(s: Container, d: Declaration, n: nat, b: seq<byte>, h: nat)
    decreases h, 4, n, 1
  {
    if n == 0 then b == [] else exists cut :: TimesCut(s, d, n, b, cut, h)
  }

  ghost predicate TimesCut(s: Container, d: Declaration, n: nat, b: seq<byte>, cut: nat, h: nat)
    requires n > 0
    decreases h, 4, n, 0
  {
    cut <= |b| && Matches(s, d, b[..cut], h) && MatchesTimes(s, d, n - 1, b[cut..], h)
  }

  ghost predicate MatchesRow(s: Container, ds: seq<Declaration>, b: seq<byte>, h: nat)
    decreases h, 4, |ds|, 1
  {
    if ds == [] then b == [] else exists cut :: RowCut(s, ds, b, cut, h)
  }

  ghost predicate RowCut(s: Container, ds: seq<Declaration>, b: seq<byte>, cut: nat, h: nat)
    requires ds != []
    decreases h, 4, |ds|, 0
  {
    cut <= |b| && Matches(s, ds[0], b[..cut], h) && MatchesRow(s, ds[1..], b[cut..], h)
  }

  /** `b` is one of the byte strings that declaration `d` describes. */
  ghost predicate Describes(s: Container, d: Declaration, b: seq<byte>) {
    exists h :: Matches(s, d, b, h)
  }

  lemma {:induction false} MatchesHigher(s: Container, d: Declaration, b: seq<byte>, h: nat, higher: nat)
    requires Matches(s, d, b, h) && h <= higher
    ensures Matches(s, d, b, higher)
    decreases h, 0, 0
  {
    match s.definitions[d]
    case Primitive(_) =>
    case Sequence(width, start, end, elements) =>
      var n: nat :| start <= n <= end && IsSequence(s, width, n, elements, b, h);
      MatchesTimesHigher(s, elements, n, b[width..], h - 1, higher - 1);
      assert IsSequence(s, width, n, elements, b, higher);
    case Enum(tagWidth, variants) =>
      var i :| 0 <= i < |variants| && IsVariant(s, tagWidth, variants[i], b, h);
      MatchesHigher(s, variants[i].2, b[tagWidth..], h - 1, higher - 1);
      assert IsVariant(s, tagWidth, variants[i], b, higher);
    case Tuple(members) => MatchesRowHigher(s, members, b, h - 1, higher - 1);
    case Struct(fields) => MatchesRowHigher(s, FieldTypes(fields), b, h - 1, higher - 1);
  }

  lemma {:induction false} MatchesTimesHigher(s: Container, d: Declaration, n: nat, b: seq<byte>, h: nat, higher: nat)
    requires MatchesTimes(s, d, n, b, h) && h <= higher
    ensures MatchesTimes(s, d, n, b, higher)
    decreases h, 1, n
  {
    if n > 0 {
      var cut: nat :| TimesCut(s, d, n, b, cut, h);
      MatchesHigher(s, d, b[..cut], h, higher);
      MatchesTimesHigher(s, d, n - 1, b[cut..], h, higher);
      assert TimesCut(s, d, n, b, cut, higher);
    }
  }

  lemma {:induction false} MatchesRowHigher(s: Container, ds: seq<Declaration>, b: seq<byte>, h: nat, higher: nat)
    requires MatchesRow(s, ds, b, h) && h <= higher
    ensures MatchesRow(s, ds, b, higher)
    decreases h, 1, |ds|
  {
    if ds != [] {
      var cut: nat :| RowCut(s, ds, b, cut, h);
      MatchesHigher(s, ds[0], b[..cut], h, higher);
      MatchesRowHigher(s, ds[1..], b[cut..], h, higher);
      assert RowCut(s, ds, b, cut, higher);
    }
  }

  // Building descriptions from parts.

  lemma RowCons(s: Container, ds: seq<Declaration>, first: seq<byte>, rest: seq<byte>, h: nat)
    requires ds != [] && Matches(s, ds[0], first, h) && MatchesRow(s, ds[1..], rest, h)
    ensures MatchesRow(s, ds, first + rest, h)
  {
    var b := first + rest;
    assert b[..|first|] == first && b[|first|..] == rest;
    assert RowCut(s, ds, b, |first|, h);
  }

  lemma TimesCons(s: Container, d: Declaration, n: nat, first: seq<byte>, rest: seq<byte>, h: nat)
    requires Matches(s, d, first, h) && MatchesTimes(s, d, n, rest, h)
    ensures MatchesTimes(s, d, n + 1, first + rest, h)
  {
    var b := first + rest;
    assert b[..|first|] == first && b[|first|..] == rest;
    assert TimesCut(s, d, n + 1, b, |first|, h);
  }

  lemma SequenceOf(s: Container, width: u8, n: nat, elements: Declaration, body: seq<byte>, h: nat)
    requires Representable(width, n) && MatchesTimes(s, elements, n, body, h)
    ensures IsSequence(s, width, n, elements, LittleEndian(width, n) + body, h + 1)
  {
    var b := LittleEndian(width, n) + body;
    assert b[..width] == LittleEndian(width, n) && b[width..] == body;
  }

  lemma VariantOf(s: Container, tagWidth: u8, variant: (i64, string, Declaration), body: seq<byte>, h: nat)
    requires Matches(s, variant.2, body, h)
    ensures IsVariant(s, tagWidth, variant, TagBytes(tagWidth, variant.0) + body, h + 1)
  {
    var b := TagBytes(tagWidth, variant.0) + body;
    assert b[..tagWidth] == TagBytes(tagWidth, variant.0) && b[tagWidth..] == body;
  }
}
