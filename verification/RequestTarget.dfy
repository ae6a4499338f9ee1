/** The request target of an S3 message: percent-encoded path and query.

    Everything but the unreserved characters of section 2.3 of RFC 3986 is percent-encoded as in its section 2.1;
    paths also keep `/`. Whoever splits the result at `?`, `&` and `=` and decodes the pieces gets back what went in.
  */
module RequestTarget {
  import opened ByteStrings
  import opened Sequences
  import opened Wrappers

  const PERCENT: Byte := 0x25
  const AMPERSAND: Byte := 0x26
  const SLASH: Byte := 0x2F
  const EQUALS: Byte := 0x3D
  const QUESTION: Byte := 0x3F

  predicate Alphanumeric(b: Byte) {
    0x30 <= b <= 0x39 || 0x41 <= b <= 0x5A || 0x61 <= b <= 0x7A
  }

  /** Letters, digits, `-`, `.`, `_` and `~`. */
  predicate Unreserved(b: Byte) {
    Alphanumeric(b) || b == 0x2D || b == 0x2E || b == 0x5F || b == 0x7E
  }

  datatype Encoding = QueryEncoding | PathEncoding

  predicate Safe(b: Byte, e: Encoding) {
    Unreserved(b) || (e.PathEncoding? && b == SLASH)
  }

  /** The upper-case hexadecimal digit of four bits. */
  function HexDigit(n: bv8): Byte {
    if n < 10 then 0x30 + n else 0x37 + n
  }

  function EncodeByte(b: Byte, e: Encoding): Bytes {
    if Safe(b, e) then [b] else [PERCENT, HexDigit(b >> 4), HexDigit(b & 0xF)]
  }

  function Encode(piece: Bytes, e: Encoding): Bytes {
    if piece == [] then [] else Encode(piece[..|piece| - 1], e) + EncodeByte(piece[|piece| - 1], e)
  }

  datatype Query = Empty | Pairs(pairs: seq<(Bytes, Bytes)>) | Action(action: Bytes)

  function PrintPair(p: (Bytes, Bytes)): Bytes {
    Encode(p.0, QueryEncoding) + [EQUALS] + Encode(p.1, QueryEncoding)
  }

  function PrintPairs(pairs: seq<(Bytes, Bytes)>): Bytes {
    if pairs == [] then []
    else
      var init, last := pairs[..|pairs| - 1], pairs[|pairs| - 1];
      if init == [] then PrintPair(last) else PrintPairs(init) + [AMPERSAND] + PrintPair(last)
  }

  function PrintQuery(q: Query): Bytes {
    match q
    case Empty => []
    case Pairs(pairs) => if pairs == [] then [] else [QUESTION] + PrintPairs(pairs)
    case Action(action) => [QUESTION] + action
  }

  function Print(prefix: Bytes, path: Bytes, q: Query): Bytes {
    Encode(prefix, PathEncoding) + Encode(path, PathEncoding) + PrintQuery(q)
  }

  // ----- The writers -----

  method WriteEncodedFragment(s: Bytes, piece: Bytes, e: Encoding) returns (r: Bytes)
    ensures r == s + Encode(piece, e)
    ensures AllPlain(piece, e) ==> r == s + piece
  {
    EncodedAsItIs(piece, e);
    r := s;
    Nil(s);
    var i := 0;
    while i < |piece|
      invariant 0 <= i <= |piece|
      invariant r == s + Encode(piece[..i], e)
    {
      hide EncodeByte;
      assert piece[..i + 1][..i] == piece[..i];
      Regroup(s, Encode(piece[..i], e), EncodeByte(piece[i], e));
      r := r + EncodeByte(piece[i], e);
      i := i + 1;
    }
    assert piece[..|piece|] == piece;
  }

  method WriteQuery(path: Bytes, q: Query) returns (r: Bytes)
    ensures r == path + PrintQuery(q)
  {
    hide Encode, PrintPair;
    match q
    case Pairs(pairs) =>
      if pairs == [] {
        r := path;
        Nil(path);
      } else {
        var head := path + [QUESTION];
        r := head;
        Nil(head);
        for i := 0 to |pairs|
          invariant r == head + PrintPairs(pairs[..i])
        {
          if i != 0 {
            r := r + [AMPERSAND];
          }
          ghost var base := r;
          r := WriteEncodedFragment(r, pairs[i].0, QueryEncoding);
          r := r + [EQUALS];
          r := WriteEncodedFragment(r, pairs[i].1, QueryEncoding);
          PairWritten(base, pairs[i], r);
          PairsStep(head, pairs, i);
        }
        assert pairs[..|pairs|] == pairs;
        Regroup(path, [QUESTION], PrintPairs(pairs));
      }
    case Action(action) =>
      r := path + [QUESTION] + action;
      Regroup(path, [QUESTION], action);
    case Empty =>
      r := path;
      Nil(path);
  }

  lemma PairWritten(base: Bytes, p: (Bytes, Bytes), r: Bytes)
    requires r == base + Encode(p.0, QueryEncoding) + [EQUALS] + Encode(p.1, QueryEncoding)
    ensures r == base + PrintPair(p)
  {
    hide Encode;
    var k, v := Encode(p.0, QueryEncoding), Encode(p.1, QueryEncoding);
    Regroup(base, k, [EQUALS]);
    Regroup(base, k + [EQUALS], v);
  }

  lemma PairsStep(head: Bytes, pairs: seq<(Bytes, Bytes)>, i: nat)
    requires i < |pairs|
    ensures head + PrintPairs(pairs[..i + 1]) ==
            (if i == 0 then head + PrintPairs(pairs[..i]) else head + PrintPairs(pairs[..i]) + [AMPERSAND])
            + PrintPair(pairs[i])
  {
    hide Encode, PrintPair;
    var before, pair := PrintPairs(pairs[..i]), PrintPair(pairs[i]);
    assert pairs[..i + 1][..i] == pairs[..i];
    if i == 0 {
      Nil(head);
    } else {
      Regroup(head, before, [AMPERSAND]);
      Regroup(head, before + [AMPERSAND], pair);
    }
  }

  /** Builds the request target in one buffer. */
  method SetRequestPathAndQuery(prefix: Bytes, path: Bytes, q: Query) returns (target: Bytes)
    ensures target == Print(prefix, path, q)
    ensures AllPlain(prefix, PathEncoding) && AllPlain(path, PathEncoding) ==> target == prefix + path + PrintQuery(q)
  {
    hide Encode, PrintQuery;
    EncodedAsItIs(prefix, PathEncoding);
    EncodedAsItIs(path, PathEncoding);
    target := WriteEncodedFragment([], prefix, PathEncoding);
    Nil(Encode(prefix, PathEncoding));
    target := WriteEncodedFragment(target, path, PathEncoding);
    target := WriteQuery(target, q);
  }

  // ----- Reading a target back -----

  function HexValue(b: Byte): Option<bv8> {
    if 0x30 <= b <= 0x39 then Some(b - 0x30)
    else if 0x41 <= b <= 0x46 then Some(b - 0x37)
    else if 0x61 <= b <= 0x66 then Some(b - 0x57)
    else None
  }

  /** Percent-decoding: section 2.1 of RFC 3986. */
  function Decode(s: Bytes): Option<Bytes>
    decreases |s|
  {
    if s == [] then Some([])
    else if s[0] == PERCENT then
      if |s| < 3 || HexValue(s[1]).None? || HexValue(s[2]).None? then None
      else
        var rest := Decode(s[3..]);
        if rest.None? then None
        else
          Some([(HexValue(s[1]).value << 4) | HexValue(s[2]).value] + rest.value)
    else
      var rest := Decode(s[1..]);
      if rest.None? then None else Some([s[0]] + rest.value)
  }

  /** The pieces between occurrences of `c`. */
  function SplitAll(s: Bytes, c: Byte): (pieces: seq<Bytes>)
    ensures pieces != []
    decreases |s|
  {
    if s == [] then [[]]
    else if s[0] == c then [[]] + SplitAll(s[1..], c)
    else
      var rest := SplitAll(s[1..], c);
      [[s[0]] + rest[0]] + rest[1..]
  }

  function ParsePair(s: Bytes): Option<(Bytes, Bytes)> {
    var (key, value) := SplitOnce(s, EQUALS);
    if value.None? || Decode(key).None? || Decode(value.value).None? then None
    else Some((Decode(key).value, Decode(value.value).value))
  }

  function ParsePairs(pieces: seq<Bytes>): Option<seq<(Bytes, Bytes)>> {
    if pieces == [] then Some([])
    else
      var init, last := ParsePairs(pieces[..|pieces| - 1]), ParsePair(pieces[|pieces| - 1]);
      if init.None? || last.None? then None else Some(init.value + [last.value])
  }

  datatype Target = Target(path: Bytes, query: Option<seq<(Bytes, Bytes)>>)

  function Parse(s: Bytes): Option<Target> {
    var (path, query) := SplitOnce(s, QUESTION);
    if Decode(path).None? then None
    else if query.None? then Some(Target(Decode(path).value, None))
    else
      var pairs := ParsePairs(SplitAll(query.value, AMPERSAND));
      if pairs.None? then None else Some(Target(Decode(path).value, Some(pairs.value)))
  }

  // ----- What is written, byte by byte -----

  /** The bytes that stand for themselves: letters, digits and `-._~`, and in a path the slash. */
  ghost predicate Plain(b: Byte, e: Encoding) {
    || 0x41 <= b <= 0x5A || 0x61 <= b <= 0x7A || 0x30 <= b <= 0x39
    || b in {0x2D, 0x2E, 0x5F, 0x7E} || (e.PathEncoding? && b == 0x2F)
  }

  ghost predicate UpperHex(b: Byte) {
    0x30 <= b <= 0x39 || 0x41 <= b <= 0x46
  }

  ghost predicate AllPlain(piece: Bytes, e: Encoding) {
    forall i | 0 <= i < |piece| :: Plain(piece[i], e)
  }

  ghost function Escapes(piece: Bytes, e: Encoding): nat {
    if piece == [] then 0
    else Escapes(piece[..|piece| - 1], e) + if Plain(piece[|piece| - 1], e) then 0 else 1
  }

  /** A plain byte stands for itself; any other becomes a percent sign and two upper-case hexadecimal digits, of which
      decoding says which they are. */
  lemma EncodedByte(b: Byte, e: Encoding)
    ensures var r := EncodeByte(b, e);
            if Plain(b, e) then r == [b] else |r| == 3 && r[0] == 0x25 && UpperHex(r[1]) && UpperHex(r[2])
  {
    hide HexDigit;
    Halves(b);
    UpperDigit(b >> 4);
    UpperDigit(b & 0xF);
  }

  lemma UpperDigit(n: bv8)
    requires n < 16
    ensures UpperHex(HexDigit(n))
  {
  }

  lemma EncodeEmpty(e: Encoding)
    ensures Encode([], e) == [] && Escapes([], e) == 0
  {
  }

  lemma EncodeStep(piece: Bytes, e: Encoding)
    requires piece != []
    ensures var init, last := piece[..|piece| - 1], piece[|piece| - 1];
            && Encode(piece, e) == Encode(init, e) + EncodeByte(last, e)
            && Escapes(piece, e) == Escapes(init, e) + if Plain(last, e) then 0 else 1
  {
    hide EncodeByte, Plain;
  }

  /** Encoded text is longer by two for every byte escaped, and consists of plain bytes and percent signs; a slash is
      never among them in a query. */
  lemma {:induction false} EncodedForm(piece: Bytes, e: Encoding)
    ensures |Encode(piece, e)| == |piece| + 2 * Escapes(piece, e)
    ensures forall b <- Encode(piece, e) :: Plain(b, e) || b == 0x25
    ensures e.QueryEncoding? ==> 0x2F !in Encode(piece, e)
    decreases |piece|
  {
    hide Encode, EncodeByte, Escapes;
    if piece == [] {
      EncodeEmpty(e);
    } else {
      EncodeStep(piece, e);
      EncodedForm(piece[..|piece| - 1], e);
      EncodedByte(piece[|piece| - 1], e);
    }
  }

  /** Text is left as it is exactly if all its bytes are plain. */
  lemma {:induction false} EncodedAsItIs(piece: Bytes, e: Encoding)
    ensures Encode(piece, e) == piece <==> AllPlain(piece, e)
    ensures AllPlain(piece, e) <==> Escapes(piece, e) == 0
    decreases |piece|
  {
    hide Encode, EncodeByte, Escapes, Plain;
    if piece == [] {
      EncodeEmpty(e);
    } else {
      var init, last := piece[..|piece| - 1], piece[|piece| - 1];
      EncodeStep(piece, e);
      EncodedAsItIs(init, e);
      EncodedByte(last, e);
      EncodedForm(piece, e);
      Snoc(piece);
      assert AllPlain(piece, e) <==> AllPlain(init, e) && Plain(last, e) by {
        PlainSnoc(piece, e);
      }
    }
  }

  lemma PlainSnoc(piece: Bytes, e: Encoding)
    requires piece != []
    ensures AllPlain(piece, e) <==> AllPlain(piece[..|piece| - 1], e) && Plain(piece[|piece| - 1], e)
  {
    hide Plain;
    Snoc(piece);
  }

  /** The separators: a question mark before the query, an equals sign in a pair, an ampersand between pairs. */
  lemma QueryForm(pairs: seq<(Bytes, Bytes)>, p: (Bytes, Bytes), action: Bytes)
    ensures PrintQuery(Empty) == [] && PrintQuery(Pairs([])) == [] && PrintQuery(Action(action)) == [0x3F] + action
    ensures PrintPair(p) == Encode(p.0, QueryEncoding) + [0x3D] + Encode(p.1, QueryEncoding)
    ensures PrintQuery(Pairs([p])) == [0x3F] + PrintPair(p)
    ensures pairs != [] ==> PrintQuery(Pairs(pairs + [p])) == PrintQuery(Pairs(pairs)) + [0x26] + PrintPair(p)
  {
    hide Encode, PrintPair;
    assert PrintPair(p) == Encode(p.0, QueryEncoding) + [0x3D] + Encode(p.1, QueryEncoding) by {
      PairForm(p);
    }
    assert [p][..0] == [];
    assert (pairs + [p])[..|pairs|] == pairs;
    Regroup([QUESTION], PrintPairs(pairs), [AMPERSAND]);
    Regroup([QUESTION], PrintPairs(pairs) + [AMPERSAND], PrintPair(p));
  }

  lemma PairForm(p: (Bytes, Bytes))
    ensures PrintPair(p) == Encode(p.0, QueryEncoding) + [0x3D] + Encode(p.1, QueryEncoding)
  {
    hide Encode;
  }

  // ----- Round trip -----

  lemma HexRoundTrip(n: bv8)
    requires n < 16
    ensures HexValue(HexDigit(n)) == Some(n) && Alphanumeric(HexDigit(n))
  {
  }

  lemma Halves(b: Byte)
    ensures (b >> 4) < 16 && (b & 0xF) < 16 && ((b >> 4) << 4) | (b & 0xF) == b
  {
  }

  lemma DecodeTriple(s: Bytes)
    requires |s| >= 3 && s[0] == PERCENT && HexValue(s[1]).Some? && HexValue(s[2]).Some?
    ensures Decode(s) == if Decode(s[3..]).None? then None
                         else Some([(HexValue(s[1]).value << 4) | HexValue(s[2]).value] + Decode(s[3..]).value)
  {
    hide HexValue;
  }

  lemma DecodePlain(s: Bytes)
    requires s != [] && s[0] != PERCENT
    ensures Decode(s) == if Decode(s[1..]).None? then None else Some([s[0]] + Decode(s[1..]).value)
  {
    hide HexValue;
  }

  lemma DecodeByte(b: Byte, e: Encoding, rest: Bytes)
    ensures Decode(EncodeByte(b, e) + rest) ==
            if Decode(rest).None? then None else Some([b] + Decode(rest).value)
  {
    hide Decode, HexDigit, HexValue;
    var s := EncodeByte(b, e) + rest;
    if Safe(b, e) {
      assert s[1..] == rest;
      DecodePlain(s);
    } else {
      Halves(b);
      HexRoundTrip(b >> 4);
      HexRoundTrip(b & 0xF);
      assert s[3..] == rest;
      DecodeTriple(s);
    }
  }

  lemma {:induction false} DecodeEncode(piece: Bytes, e: Encoding, rest: Bytes)
    ensures Decode(Encode(piece, e) + rest) ==
            if Decode(rest).None? then None else Some(piece + Decode(rest).value)
    decreases |piece|
  {
    if piece == [] {
      Nil(rest);
      Nil(if Decode(rest).None? then [] else Decode(rest).value);
    } else {
      hide EncodeByte, Decode;
      var init, last := piece[..|piece| - 1], piece[|piece| - 1];
      Regroup(Encode(init, e), EncodeByte(last, e), rest);
      DecodeEncode(init, e, EncodeByte(last, e) + rest);
      DecodeByte(last, e, rest);
      if Decode(rest).Some? {
        Regroup(init, [last], Decode(rest).value);
        Snoc(piece);
      }
    }
  }

  /** Decoding undoes encoding, whatever the bytes. */
  lemma DecodeUndoesEncode(piece: Bytes, e: Encoding)
    ensures Decode(Encode(piece, e)) == Some(piece)
  {
    DecodeEncode(piece, e, []);
    Nil(Encode(piece, e));
    Nil(piece);
  }

  lemma EncodedByteHasNoSeparators(b: Byte, e: Encoding)
    ensures QUESTION !in EncodeByte(b, e) && AMPERSAND !in EncodeByte(b, e) && EQUALS !in EncodeByte(b, e)
  {
    hide HexDigit;
    Halves(b);
    HexRoundTrip(b >> 4);
    HexRoundTrip(b & 0xF);
  }

  /** Encoded text contains none of the separators. */
  lemma {:induction false} EncodedHasNoSeparators(piece: Bytes, e: Encoding)
    ensures QUESTION !in Encode(piece, e) && AMPERSAND !in Encode(piece, e) && EQUALS !in Encode(piece, e)
    decreases |piece|
  {
    hide EncodeByte;
    if piece != [] {
      EncodedHasNoSeparators(piece[..|piece| - 1], e);
      EncodedByteHasNoSeparators(piece[|piece| - 1], e);
    }
  }

  lemma {:induction false} SplitAllOne(s: Bytes, c: Byte)
    requires c !in s
    ensures SplitAll(s, c) == [s]
    decreases |s|
  {
    if s != [] {
      SplitAllOne(s[1..], c);
      assert s == [s[0]] + s[1..];
    }
  }

  lemma {:induction false} SplitAllLast(s: Bytes, c: Byte, last: Bytes)
    requires c !in last
    ensures SplitAll(s + [c] + last, c) == SplitAll(s, c) + [last]
    decreases |s|
  {
    var t := s + [c] + last;
    SplitAllOne(last, c);
    if s == [] {
      assert t[1..] == last;
    } else {
      assert t[1..] == s[1..] + [c] + last;
      SplitAllLast(s[1..], c, last);
    }
  }

  lemma ParsePrintedPair(p: (Bytes, Bytes))
    ensures ParsePair(PrintPair(p)) == Some(p)
    ensures AMPERSAND !in PrintPair(p)
  {
    hide Encode, Decode, SplitOnce;
    EncodedHasNoSeparators(p.0, QueryEncoding);
    EncodedHasNoSeparators(p.1, QueryEncoding);
    SplitOnceAt(Encode(p.0, QueryEncoding), EQUALS, Encode(p.1, QueryEncoding));
    DecodeUndoesEncode(p.0, QueryEncoding);
    DecodeUndoesEncode(p.1, QueryEncoding);
  }

  lemma ParsePairsStep(pieces: seq<Bytes>, piece: Bytes)
    ensures ParsePairs(pieces + [piece]) ==
            if ParsePairs(pieces).None? || ParsePair(piece).None? then None
            else Some(ParsePairs(pieces).value + [ParsePair(piece).value])
  {
    assert (pieces + [piece])[..|pieces|] == pieces;
  }

  lemma {:induction false} ParsePrintedPairs(pairs: seq<(Bytes, Bytes)>)
    requires pairs != []
    ensures ParsePairs(SplitAll(PrintPairs(pairs), AMPERSAND)) == Some(pairs)
    decreases |pairs|
  {
    hide PrintPair, ParsePair, SplitAll, ParsePairs;
    var init, last := pairs[..|pairs| - 1], pairs[|pairs| - 1];
    ParsePrintedPair(last);
    Snoc(pairs);
    if init == [] {
      SplitAllOne(PrintPair(last), AMPERSAND);
      ParseNoPairs();
      ParsePairsStep([], PrintPair(last));
      Nil([PrintPair(last)]);
    } else {
      ParsePrintedPairs(init);
      SplitAllLast(PrintPairs(init), AMPERSAND, PrintPair(last));
      ParsePairsStep(SplitAll(PrintPairs(init), AMPERSAND), PrintPair(last));
    }
  }

  lemma ParseNoPairs()
    ensures ParsePairs([]) == Some([])
  {
  }

  /** A printed target, split and decoded, gives back the whole path and the same list of pairs, whatever bytes
      they contain; with no pairs to print there is no query. */
  lemma ParseUndoesPrint(prefix: Bytes, path: Bytes, pairs: seq<(Bytes, Bytes)>)
    ensures Parse(Print(prefix, path, Pairs(pairs))) ==
            Some(Target(prefix + path, if pairs == [] then None else Some(pairs)))
    ensures Parse(Print(prefix, path, Empty)) == Some(Target(prefix + path, None))
  {
    hide Encode, Decode, SplitOnce, SplitAll, ParsePairs, PrintPairs;
    var a, b := Encode(prefix, PathEncoding), Encode(path, PathEncoding);
    EncodedHasNoSeparators(prefix, PathEncoding);
    EncodedHasNoSeparators(path, PathEncoding);
    SplitOnceAt(a + b, QUESTION, PrintPairs(pairs));
    Nil(a + b);
    Regroup(a + b, [QUESTION], PrintPairs(pairs));
    assert Decode(a + b) == Some(prefix + path) by {
      DecodeEncode(prefix, PathEncoding, b);
      DecodeUndoesEncode(path, PathEncoding);
    }
    if pairs != [] {
      ParsePrintedPairs(pairs);
    }
  }

  /** Different requests have different targets. */
  lemma PrintInjective(prefix: Bytes, path: Bytes, pairs: seq<(Bytes, Bytes)>,
                       path': Bytes, pairs': seq<(Bytes, Bytes)>)
    requires Print(prefix, path, Pairs(pairs)) == Print(prefix, path', Pairs(pairs'))
    ensures path == path' && pairs == pairs'
  {
    hide Parse, Print;
    ParseUndoesPrint(prefix, path, pairs);
    ParseUndoesPrint(prefix, path', pairs');
    assert (prefix + path)[|prefix|..] == path && (prefix + path')[|prefix|..] == path';
  }
}
