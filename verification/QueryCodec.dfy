/** Query encoding of the gateway (src/Gateway.cpp): percent-encoding with '+' for the space, and the
    key=value&key=value body. Percent-encoding is section 2.1 of RFC 3986, the unreserved set section
    2.3 of RFC 3986, and the '+' and '&' conventions section 8.2.1 of RFC 1866. */
module QueryCodec {
  import opened Basics
  import opened ByteRegions

  // Character codes are written as numbers.
  const PLUS: Byte := 43       // '+'
  const PERCENT: Byte := 37    // '%'
  const SPACE: Byte := 32      // ' '
  const AMPERSAND: Byte := 38  // '&'
  const EQUALS: Byte := 61     // '='

  predicate IsDigit(ch: Byte) { 48 <= ch <= 57 }  // '0'..'9'

  predicate IsUnreserved(ch: Byte) {
    || ch == 45 || ch == 46 || ch == 95 || ch == 126  // - . _ ~
    || 65 <= ch <= 90                                 // 'A'..'Z'
    || 97 <= ch <= 122                                // 'a'..'z'
    || IsDigit(ch)
  }

  /** The value added for one character behind a '%'; characters that are no hex digit add nothing. */
  function HexValue(hex: Byte): nat {
    if IsDigit(hex) then hex - 48
    else if 97 <= hex <= 102 then hex - 97 + 10  // 'a'..'f'
    else if 65 <= hex <= 70 then hex - 65 + 10   // 'A'..'F'
    else 0
  }

  /** Entry n of "0123456789ABCDEF". */
  function HexDigit(n: nat): Byte
    requires n < 16
  {
    if n < 10 then 48 + n else 65 + (n - 10)
  }

  lemma HexDigitRoundTrip(n: nat)
    requires n < 16
    ensures HexValue(HexDigit(n)) == n
    ensures HexDigit(n) != AMPERSAND && HexDigit(n) != EQUALS
  {
  }

  // ---------- decoding ----------

  function EscapedByte(high: Byte, low: Byte): Byte {
    (HexValue(high) * 16 + HexValue(low)) % 256
  }

  /** Meaning of the encoded string s[i..end]. A '%' without two characters behind it ends the result. */
  function Decode(s: seq<Byte>, i: nat, end: nat): seq<Byte>
    requires end <= |s|
    decreases end - i
  {
    if i >= end then []
    else if s[i] == PLUS then [SPACE] + Decode(s, i + 1, end)
    else if s[i] != PERCENT then [s[i]] + Decode(s, i + 1, end)
    else if i + 2 >= end then []
    else [EscapedByte(s[i + 1], s[i + 2])] + Decode(s, i + 3, end)
  }

  /** The value of the two characters behind position i, shifted and added in a char. */
  method Unescape(s: seq<Byte>, i: nat) returns (ch: Byte)
    requires i + 2 < |s|
    ensures ch == EscapedByte(s[i + 1], s[i + 2])
  {
    ch := 0;
    for j := 1 to 3
      invariant j == 1 ==> ch == 0
      invariant j == 2 ==> ch == HexValue(s[i + 1])
      invariant j == 3 ==> ch == EscapedByte(s[i + 1], s[i + 2])
    {
      ch := (ch * 16 + HexValue(s[i + j])) % 256;
    }
  }

  lemma MoveHead(done: seq<Byte>, ch: Byte, todo: seq<Byte>)
    ensures done + ([ch] + todo) == (done + [ch]) + todo
  {
  }

  method DecodeQuery(s: seq<Byte>, start: nat, end: nat) returns (r: seq<Byte>)
    requires end <= |s|
    ensures r == Decode(s, start, end)
    ensures start <= end && IsWellFormed(s, start, end) ==> Writes(s, start, end, r, 0)
  {
    if start <= end && IsWellFormed(s, start, end) {
      DecodeExactly(s, start, end, Decode(s, start, end));
    }
    r := [];
    var i := start;
    ghost var todo := Decode(s, start, end);
    while i < end
      invariant todo == Decode(s, i, end) && r + todo == Decode(s, start, end)
    {
      var ch := s[i];
      if ch == PLUS {
        ch := SPACE;
      } else if ch == PERCENT {
        if i + 2 >= end {
          return;
        }
        ch := Unescape(s, i);
        i := i + 2;
      }
      i := i + 1;
      todo := Decode(s, i, end);
      MoveHead(r, ch, todo);
      r := r + [ch];
    }
  }

  // ---------- what decoding inverts ----------

  /** One of the characters that stand for a hex digit: '0'..'9', 'A'..'F', 'a'..'f'. */
  predicate IsHexDigit(ch: Byte, n: nat) {
    n < 16 && if n < 10 then ch == 48 + n else ch == 65 + (n - 10) || ch == 97 + (n - 10)
  }

  predicate IsHex(ch: Byte) {
    exists n: nat :: n < 16 && IsHexDigit(ch, n)
  }

  /** A hex digit of either case has its value, anything else has none. */
  lemma HexValueExactly(ch: Byte, n: nat)
    ensures IsHexDigit(ch, n) ==> HexValue(ch) == n
    ensures !IsHex(ch) ==> HexValue(ch) == 0
    ensures IsHex(ch) ==> IsHexDigit(ch, HexValue(ch))
  {
    if HexValue(ch) != 0 {
      assert IsHexDigit(ch, HexValue(ch));
    }
  }

  /** An escape with digits of either case is the byte with these digits. */
  lemma EscapeIsItsByte(high: Byte, low: Byte, n: nat, m: nat)
    requires IsHexDigit(high, n) && IsHexDigit(low, m)
    ensures EscapedByte(high, low) == 16 * n + m
  {
  }

  /** text[i..end] writes the bytes s[k..]: each one literally, a space as '+' (43), or any byte as '%' (37)
      and two hex digits of either case. A literal '+' or '%' is not possible. */
  predicate Writes(text: seq<Byte>, i: nat, end: nat, s: seq<Byte>, k: nat)
    requires end <= |text| && k <= |s|
    decreases |s| - k
  {
    if k == |s| then i == end
    else
      || (i < end && text[i] == s[k] && s[k] != 43 && s[k] != 37 && Writes(text, i + 1, end, s, k + 1))
      || (i < end && text[i] == 43 && s[k] == 32 && Writes(text, i + 1, end, s, k + 1))
      || (i + 3 <= end && text[i] == 37 && IsHexDigit(text[i + 1], s[k] / 16) && IsHexDigit(text[i + 2], s[k] % 16)
          && Writes(text, i + 3, end, s, k + 1))
  }

  /** Every '%' has its two hex digits. */
  predicate IsWellFormed(text: seq<Byte>, i: nat, end: nat)
    requires end <= |text|
    decreases end - i
  {
    if i >= end then i == end
    else if text[i] != 37 then IsWellFormed(text, i + 1, end)
    else i + 3 <= end && IsHex(text[i + 1]) && IsHex(text[i + 2]) && IsWellFormed(text, i + 3, end)
  }

  /** Decoding inverts every way to write a string. */
  lemma {:induction false} DecodeWritten(text: seq<Byte>, i: nat, end: nat, s: seq<Byte>, k: nat)
    requires end <= |text| && k <= |s| && Writes(text, i, end, s, k)
    ensures Decode(text, i, end) == s[k..] && IsWellFormed(text, i, end)
    decreases |s| - k
  {
    if k < |s| {
      HeadAndTail(s, k);
      if i < end && text[i] != 37 {
        DecodeWritten(text, i + 1, end, s, k + 1);
      } else {
        EscapeIsItsByte(text[i + 1], text[i + 2], s[k] / 16, s[k] % 16);
        DecodeWritten(text, i + 3, end, s, k + 1);
      }
    }
  }

  /** And whatever is well-formed is a way to write what it decodes to. */
  lemma {:induction false} WrittenAsDecoded(text: seq<Byte>, i: nat, end: nat, s: seq<Byte>, k: nat)
    requires end <= |text| && k <= |s| && IsWellFormed(text, i, end) && Decode(text, i, end) == s[k..]
    ensures Writes(text, i, end, s, k)
    decreases end - i
  {
    if i < end {
      var step := if text[i] == 37 then 3 else 1;
      HeadAndTail(s, k);
      assert Decode(text, i, end) == [s[k]] + s[k + 1..];
      assert Decode(text, i + step, end) == s[k + 1..];
      if text[i] == 37 {
        HexValueExactly(text[i + 1], 0);
        HexValueExactly(text[i + 2], 0);
      }
      WrittenAsDecoded(text, i + step, end, s, k + 1);
    }
  }

  /** A well-formed text decodes to a string exactly if it is a way to write it. */
  lemma DecodeExactly(text: seq<Byte>, i: nat, end: nat, s: seq<Byte>)
    requires i <= end <= |text| && IsWellFormed(text, i, end)
    ensures Decode(text, i, end) == s <==> Writes(text, i, end, s, 0)
  {
    if Writes(text, i, end, s, 0) {
      DecodeWritten(text, i, end, s, 0);
    }
    if Decode(text, i, end) == s {
      WrittenAsDecoded(text, i, end, s, 0);
    }
  }

  /** A '%' too close to the end cuts the text. */
  lemma {:induction false} DecodeIsCut(text: seq<Byte>, i: nat, cut: nat, end: nat)
    requires cut < end <= |text| && IsWellFormed(text, i, cut) && text[cut] == 37 && cut + 2 >= end
    ensures Decode(text, i, end) == Decode(text, i, cut)
    decreases cut - i
  {
    if i < cut {
      DecodeIsCut(text, if text[i] == 37 then i + 3 else i + 1, cut, end);
    }
  }

  lemma HeadAndTail(s: seq<Byte>, k: nat)
    requires k < |s|
    ensures s[k..] == [s[k]] + s[k + 1..]
  {
  }

  // ---------- encoding ----------

  function EncodeByte(ch: Byte): seq<Byte> {
    if IsUnreserved(ch) then [ch]
    else if ch == SPACE then [PLUS]
    else [PERCENT, HexDigit(ch / 16), HexDigit(ch % 16)]
  }

  function EncodeFrom(s: seq<Byte>, k: nat): seq<Byte>
    requires k <= |s|
    decreases |s| - k
  {
    if k == |s| then [] else EncodeByte(s[k]) + EncodeFrom(s, k + 1)
  }

  function Encode(s: seq<Byte>): seq<Byte> {
    EncodeFrom(s, 0)
  }

  method EncodeQuery(s: seq<Byte>) returns (r: seq<Byte>)
    ensures r == Encode(s)
  {
    r := [];
    ghost var todo := Encode(s);
    for k := 0 to |s|
      invariant todo == EncodeFrom(s, k) && r + todo == Encode(s)
    {
      var ch := s[k];
      todo := EncodeFrom(s, k + 1);
      MoveEncoded(r, ch, todo);
      if IsUnreserved(ch) {
        r := r + [ch];
      } else if ch == SPACE {
        r := r + [PLUS];
      } else {
        r := r + [PERCENT];
        r := r + [HexDigit(ch / 16)];
        r := r + [HexDigit(ch % 16)];
      }
    }
  }

  lemma MoveEncoded(done: seq<Byte>, ch: Byte, todo: seq<Byte>)
    ensures done + (EncodeByte(ch) + todo)
            == if IsUnreserved(ch) then done + [ch] + todo
               else if ch == SPACE then done + [PLUS] + todo
               else done + [PERCENT] + [HexDigit(ch / 16)] + [HexDigit(ch % 16)] + todo
  {
  }

  /** The piece stands in the text at position i. */
  predicate IsAt(text: seq<Byte>, i: nat, piece: seq<Byte>) {
    i + |piece| <= |text| && forall k {:trigger piece[k]} :: 0 <= k < |piece| ==> text[i + k] == piece[k]
  }

  lemma SplitAt(text: seq<Byte>, i: nat, a: seq<Byte>, b: seq<Byte>)
    requires IsAt(text, i, a + b)
    ensures IsAt(text, i, a) && IsAt(text, i + |a|, b)
  {
    forall k {:trigger b[k]} | 0 <= k < |b|
      ensures text[i + |a| + k] == b[k]
    {
      assert (a + b)[|a| + k] == b[k];
    }
    forall k {:trigger a[k]} | 0 <= k < |a|
      ensures text[i + k] == a[k]
    {
      assert (a + b)[k] == a[k];
    }
  }

  lemma ByteAt(text: seq<Byte>, i: nat, piece: seq<Byte>, k: nat)
    requires IsAt(text, i, piece) && k < |piece|
    ensures text[i + k] == piece[k]
  {
  }

  lemma HeadUpTo(text: seq<Byte>, i: nat, ch: Byte, rest: seq<Byte>, end: nat)
    requires IsAt(text, i, EncodeByte(ch) + rest) && end == i + |EncodeByte(ch) + rest|
    ensures IsAt(text, i, EncodeByte(ch)) && IsAt(text, i + |EncodeByte(ch)|, rest)
    ensures end == i + |EncodeByte(ch)| + |rest| <= |text|
  {
    SplitAt(text, i, EncodeByte(ch), rest);
  }

  lemma EncodedByteIsWritten(text: seq<Byte>, i: nat, end: nat, s: seq<Byte>, k: nat)
    requires k < |s| && i + |EncodeByte(s[k])| <= end <= |text| && IsAt(text, i, EncodeByte(s[k]))
    requires Writes(text, i + |EncodeByte(s[k])|, end, s, k + 1)
    ensures Writes(text, i, end, s, k)
  {
    var piece := EncodeByte(s[k]);
    ByteAt(text, i, piece, 0);
    if |piece| == 3 {
      ByteAt(text, i, piece, 1);
      ByteAt(text, i, piece, 2);
    }
  }

  /** Encoding is one way to write a string. */
  lemma {:induction false} EncodedIsWritten(text: seq<Byte>, i: nat, end: nat, s: seq<Byte>, k: nat)
    requires k <= |s| && IsAt(text, i, EncodeFrom(s, k)) && end == i + |EncodeFrom(s, k)|
    ensures Writes(text, i, end, s, k)
    decreases |s| - k
  {
    if k < |s| {
      HeadUpTo(text, i, s[k], EncodeFrom(s, k + 1), end);
      EncodedIsWritten(text, i + |EncodeByte(s[k])|, end, s, k + 1);
      EncodedByteIsWritten(text, i, end, s, k);
    }
  }

  /** Decoding the stretch that holds an encoded string gives that string, for every byte string and
      whatever surrounds it. */
  lemma DecodeEncode(text: seq<Byte>, i: nat, s: seq<Byte>)
    requires IsAt(text, i, Encode(s))
    ensures Decode(text, i, i + |Encode(s)|) == s
  {
    var end := i + |Encode(s)|;
    EncodedIsWritten(text, i, end, s, 0);
    DecodeWritten(text, i, end, s, 0);
  }

  function UpperCase(ch: Byte): Byte {
    if 97 <= ch <= 122 then ch - 32 else ch
  }

  /** From position i on, the text is enc[j..] up to the case of the digits behind each '%'. */
  predicate SameButCase(text: seq<Byte>, i: nat, enc: seq<Byte>, j: nat)
    requires j <= |enc| && i + (|enc| - j) <= |text|
    decreases |enc| - j
  {
    if j == |enc| then true
    else if enc[j] == 37 && j + 3 <= |enc| then
      text[i] == 37 && UpperCase(text[i + 1]) == UpperCase(enc[j + 1]) && UpperCase(text[i + 2]) == UpperCase(enc[j + 2])
      && SameButCase(text, i + 3, enc, j + 3)
    else text[i] == enc[j] && SameButCase(text, i + 1, enc, j + 1)
  }

  lemma HexDigitInAnyCase(a: Byte, b: Byte, n: nat)
    requires IsHexDigit(a, n) && UpperCase(a) == UpperCase(b)
    ensures IsHexDigit(b, n)
  {
  }

  lemma {:induction false} WrittenInAnyCase(text: seq<Byte>, i: nat, end: nat, enc: seq<Byte>, j: nat, s: seq<Byte>, k: nat)
    requires j <= |enc| && end == i + (|enc| - j) <= |text| && k <= |s|
    requires Writes(enc, j, |enc|, s, k) && SameButCase(text, i, enc, j)
    ensures Writes(text, i, end, s, k)
    decreases |s| - k
  {
    if k < |s| {
      if enc[j] == 37 {
        HexDigitInAnyCase(enc[j + 1], text[i + 1], s[k] / 16);
        HexDigitInAnyCase(enc[j + 2], text[i + 2], s[k] % 16);
        WrittenInAnyCase(text, i + 3, end, enc, j + 3, s, k + 1);
      } else {
        WrittenInAnyCase(text, i + 1, end, enc, j + 1, s, k + 1);
      }
    }
  }

  lemma WholeIsAt(s: seq<Byte>)
    ensures IsAt(s, 0, s)
  {
  }

  /** The same holds if the digits of the escapes are written in lower case or mixed. */
  lemma DecodeEncodeAnyCase(text: seq<Byte>, i: nat, s: seq<Byte>)
    requires i + |Encode(s)| <= |text| && SameButCase(text, i, Encode(s), 0)
    ensures Decode(text, i, i + |Encode(s)|) == s
  {
    var enc := Encode(s);
    WholeIsAt(enc);
    EncodedIsWritten(enc, 0, |enc|, s, 0);
    WrittenInAnyCase(text, i, i + |enc|, enc, 0, s, 0);
    DecodeWritten(text, i, i + |enc|, s, 0);
  }

  /** What encoding leaves alone and what becomes of the rest, by character codes: letters, digits, '-' (45),
      '.' (46), '_' (95) and '~' (126) stay, a space (32) becomes '+' (43), and everything else '%' (37) and
      two hex digits in upper case. */
  lemma EncodeByteExactly(ch: Byte)
    ensures EncodeByte(ch) == [ch]
            <==> 65 <= ch <= 90 || 97 <= ch <= 122 || 48 <= ch <= 57 || ch == 45 || ch == 46 || ch == 95 || ch == 126
    ensures EncodeByte(ch) == [43] <==> ch == 32
    ensures EncodeByte(ch) != [ch] && ch != 32 ==>
              var e := EncodeByte(ch);
              && |e| == 3 && e[0] == 37 && IsHexDigit(e[1], ch / 16) && IsHexDigit(e[2], ch % 16)
              && e[1] == UpperCase(e[1]) && e[2] == UpperCase(e[2])
  {
  }

  predicate IsFree(s: seq<Byte>) {
    AMPERSAND !in s && EQUALS !in s
  }

  lemma EncodedByteIsFree(ch: Byte)
    ensures IsFree(EncodeByte(ch))
  {
    HexDigitRoundTrip(ch / 16);
    HexDigitRoundTrip(ch % 16);
  }

  lemma FreeAppend(a: seq<Byte>, b: seq<Byte>)
    requires IsFree(a) && IsFree(b)
    ensures IsFree(a + b)
  {
  }

  lemma {:induction false} EncodedFromIsFree(s: seq<Byte>, k: nat)
    requires k <= |s|
    ensures IsFree(EncodeFrom(s, k))
    decreases |s| - k
  {
    if k < |s| {
      EncodedFromIsFree(s, k + 1);
      EncodedByteIsFree(s[k]);
      FreeAppend(EncodeByte(s[k]), EncodeFrom(s, k + 1));
    }
  }

  /** Encoded strings never contain the separators. */
  lemma EncodedIsFree(s: seq<Byte>)
    ensures IsFree(Encode(s))
  {
    EncodedFromIsFree(s, 0);
  }

  // ---------- the body ----------

  type Pair = (seq<Byte>, seq<Byte>)

  function RenderPair(p: Pair): seq<Byte> {
    p.0 + [EQUALS] + Encode(p.1)
  }

  /** The pairs from the k-th on, with a '&' between each two. */
  function RenderFrom(pairs: seq<Pair>, k: nat): seq<Byte>
    requires k <= |pairs|
    decreases |pairs| - k
  {
    if k == |pairs| then []
    else RenderPair(pairs[k]) + if k + 1 < |pairs| then [AMPERSAND] + RenderFrom(pairs, k + 1) else []
  }

  function Render(pairs: seq<Pair>): seq<Byte> {
    RenderFrom(pairs, 0)
  }

  /** The body-building loop over the parameters, in the order the map is iterated. */
  method BuildBody(pairs: seq<Pair>) returns (data: seq<Byte>)
    ensures data == Render(pairs)
  {
    data := [];
    ghost var todo := Render(pairs);
    for k := 0 to |pairs|
      invariant data == [] <==> k == 0
      invariant data + todo == Render(pairs)
      invariant todo == if 0 < k < |pairs| then [AMPERSAND] + RenderFrom(pairs, k) else RenderFrom(pairs, k)
    {
      var p := pairs[k];
      todo := if k + 1 < |pairs| then [AMPERSAND] + RenderFrom(pairs, k + 1) else [];
      MovePair(data, p, Encode(p.1), todo);
      if data != [] {
        data := data + [AMPERSAND];
      }
      data := data + p.0;
      data := data + [EQUALS];
      var value := EncodeQuery(p.1);
      data := data + value;
    }
  }

  lemma MovePair(data: seq<Byte>, p: Pair, value: seq<Byte>, todo: seq<Byte>)
    ensures data + (p.0 + [EQUALS] + value + todo) == data + p.0 + [EQUALS] + value + todo
    ensures data + ([AMPERSAND] + (p.0 + [EQUALS] + value + todo)) == data + [AMPERSAND] + p.0 + [EQUALS] + value + todo
  {
  }

  // ---------- splitting ----------

  type Parameters = map<seq<Byte>, seq<Byte>>

  /** Position of the first ch at or behind from; |s| if there is none. */
  function FirstFrom(s: seq<Byte>, ch: Byte, from: nat): (n: nat)
    requires from <= |s|
    ensures from <= n <= |s|
    decreases |s| - from
  {
    if from == |s| || s[from] == ch then from else FirstFrom(s, ch, from + 1)
  }

  lemma {:induction false} FirstFromIsFirst(s: seq<Byte>, ch: Byte, from: nat)
    requires from <= |s|
    ensures var n := FirstFrom(s, ch, from);
            (forall i :: from <= i < n ==> s[i] != ch) && (n < |s| ==> s[n] == ch)
    decreases |s| - from
  {
    if from < |s| && s[from] != ch {
      FirstFromIsFirst(s, ch, from + 1);
    }
  }

  lemma {:induction false} FirstFromIs(s: seq<Byte>, ch: Byte, from: nat, n: nat)
    requires from <= n <= |s| && (forall i :: from <= i < n ==> s[i] != ch) && (n < |s| ==> s[n] == ch)
    ensures FirstFrom(s, ch, from) == n
    decreases n - from
  {
    if from < n {
      FirstFromIs(s, ch, from + 1, n);
    }
  }

  /** std::string::find; None is npos. */
  method Find(s: seq<Byte>, ch: Byte, from: nat) returns (pos: Option<nat>)
    requires from <= |s|
    ensures pos == if FirstFrom(s, ch, from) < |s| then Some(FirstFrom(s, ch, from)) else None
  {
    var i := from;
    while i < |s|
      invariant from <= i <= |s| && FirstFrom(s, ch, from) == FirstFrom(s, ch, i)
    {
      if s[i] == ch {
        return Some(i);
      }
      i := i + 1;
    }
    return None;
  }

  /** The argument q[from..to] sets the parameter before its first '='; without '=' it is ignored. */
  function SetArgument(parameters: Parameters, q: seq<Byte>, from: nat, to: nat): Parameters
    requires from <= to <= |q|
  {
    var eq := FirstFrom(q, EQUALS, from);
    if eq < to then parameters[q[from..eq] := Decode(q, eq + 1, to)] else parameters
  }

  /** Arguments are the pieces between '&'; later ones override earlier ones. */
  function ParseFrom(parameters: Parameters, q: seq<Byte>, from: nat): Parameters
    requires from <= |q|
    decreases |q| - from
  {
    var to := FirstFrom(q, AMPERSAND, from);
    var next := SetArgument(parameters, q, from, to);
    if to < |q| then ParseFrom(next, q, to + 1) else next
  }

  function Parse(q: seq<Byte>): Parameters {
    ParseFrom(map[], q, 0)
  }

  /** What an argument means, without the names above: the text q[from..to], up to the next '&' (38) or the
      end, sets the parameter before its first '=' (61) to what is decoded behind it, and is ignored if it has
      no '='; parsing goes on behind the '&'. */
  lemma ArgumentExactly(parameters: Parameters, q: seq<Byte>, from: nat, to: nat, eq: nat)
    requires from <= eq <= to <= |q| && (to < |q| ==> q[to] == 38) && forall i :: from <= i < to ==> q[i] != 38
    requires (forall i :: from <= i < eq ==> q[i] != 61) && (eq < to ==> q[eq] == 61)
    ensures var next := if eq < to then parameters[q[from..eq] := Decode(q, eq + 1, to)] else parameters;
            ParseFrom(parameters, q, from) == if to < |q| then ParseFrom(next, q, to + 1) else next
  {
    FirstFromIs(q, AMPERSAND, from, to);
    if eq < to {
      FirstFromIs(q, EQUALS, from, eq);
    } else {
      FirstFromIsFirst(q, EQUALS, from);
    }
  }

  /** What is left to parse from a position, which may be behind the end. */
  function ParseRest(parameters: Parameters, q: seq<Byte>, from: nat): Parameters {
    if from <= |q| then ParseFrom(parameters, q, from) else parameters
  }

  lemma ParseRestUnfold(parameters: Parameters, q: seq<Byte>, from: nat, to: nat)
    requires from <= |q| && to == FirstFrom(q, AMPERSAND, from)
    ensures ParseRest(parameters, q, from) == ParseRest(SetArgument(parameters, q, from, to), q, to + 1)
  {
  }

  /** Past the last argument there is nothing. */
  lemma ParseRestAtEnd(parameters: Parameters, q: seq<Byte>, from: nat)
    requires from >= |q|
    ensures ParseRest(parameters, q, from) == parameters
  {
  }

  /** The part of the loop below that looks at one argument. */
  method ParseArgument(parameters: Parameters, query: seq<Byte>, start: nat, end: nat) returns (next: Parameters)
    requires start <= end <= |query|
    ensures next == SetArgument(parameters, query, start, end)
  {
    next := parameters;
    var eqPos := Find(query, EQUALS, start);
    if eqPos.Some? && eqPos.value < end {
      var key := query[start..eqPos.value];
      var value := DecodeQuery(query, eqPos.value + 1, end);
      next := next[key := value];
    }
  }

  /** The query-splitting loop. */
  method ParseQuery(query: seq<Byte>) returns (parameters: Parameters)
    ensures parameters == Parse(query)
  {
    parameters := map[];
    var argStartPos := 0;
    ghost var goal := Parse(query);
    while argStartPos < |query|
      invariant ParseRest(parameters, query, argStartPos) == goal
    {
      var argEndPos := |query|;
      var ampPos := Find(query, AMPERSAND, argStartPos);
      if ampPos.Some? {
        argEndPos := ampPos.value;
      }
      ParseRestUnfold(parameters, query, argStartPos, argEndPos);
      parameters := ParseArgument(parameters, query, argStartPos, argEndPos);
      argStartPos := argEndPos + 1;
    }
    ParseRestAtEnd(parameters, query, argStartPos);
  }

  // ---------- round trip ----------

  /** An enumeration of the entries of a map, each key once, in any order. */
  ghost predicate Enumerates(pairs: seq<Pair>, m: Parameters) {
    && (forall i, j :: 0 <= i < j < |pairs| ==> pairs[i].0 != pairs[j].0)
    && (forall i :: 0 <= i < |pairs| ==> pairs[i].0 in m && m[pairs[i].0] == pairs[i].1)
    && (forall k :: k in m ==> exists i :: 0 <= i < |pairs| && pairs[i].0 == k)
  }

  function SetAll(parameters: Parameters, pairs: seq<Pair>, k: nat): Parameters
    requires k <= |pairs|
    decreases |pairs| - k
  {
    if k == |pairs| then parameters else SetAll(parameters[pairs[k].0 := pairs[k].1], pairs, k + 1)
  }

  /** Where the separators of a rendered pair with a free key are found. */
  lemma PairPositions(q: seq<Byte>, from: nat, key: seq<Byte>, value: seq<Byte>, eq: nat, to: nat)
    requires IsFree(key) && IsFree(value) && IsAt(q, from, key + [EQUALS] + value)
    requires eq == from + |key| && to == eq + 1 + |value| && (to < |q| ==> q[to] == AMPERSAND)
    ensures from <= eq < to <= |q| && q[from..eq] == key
    ensures FirstFrom(q, EQUALS, from) == eq && FirstFrom(q, AMPERSAND, from) == to
  {
    SplitAt(q, from, key + [EQUALS], value);
    SplitAt(q, from, key, [EQUALS]);
    ByteAt(q, eq, [EQUALS], 0);
    forall i | from <= i < to
      ensures q[i] != AMPERSAND && (i < eq ==> q[i] != EQUALS)
    {
      if i < eq {
        ByteAt(q, from, key, i - from);
      } else if i > eq {
        ByteAt(q, eq + 1, value, i - eq - 1);
      }
    }
    FirstFromIs(q, EQUALS, from, eq);
    FirstFromIs(q, AMPERSAND, from, to);
  }

  lemma ArgumentIs(parameters: Parameters, q: seq<Byte>, from: nat, to: nat, eq: nat, key: seq<Byte>, s: seq<Byte>)
    requires from <= eq < to <= |q| && eq == FirstFrom(q, EQUALS, from)
    requires q[from..eq] == key && Decode(q, eq + 1, to) == s
    ensures SetArgument(parameters, q, from, to) == parameters[key := s]
  {
  }

  /** What follows a key and '=' is decoded as the value. */
  lemma DecodeValue(q: seq<Byte>, from: nat, key: seq<Byte>, s: seq<Byte>, eq: nat, to: nat)
    requires IsAt(q, from, key + [EQUALS] + Encode(s))
    requires eq == from + |key| && to == eq + 1 + |Encode(s)|
    ensures to <= |q| && Decode(q, eq + 1, to) == s
  {
    SplitAt(q, from, key + [EQUALS], Encode(s));
    DecodeEncode(q, eq + 1, s);
  }

  /** An argument with an encoded value. */
  lemma ArgumentOfValue(parameters: Parameters, q: seq<Byte>, from: nat, key: seq<Byte>, s: seq<Byte>, eq: nat, to: nat)
    requires IsFree(key) && IsFree(Encode(s)) && IsAt(q, from, key + [EQUALS] + Encode(s))
    requires eq == from + |key| && to == eq + 1 + |Encode(s)| && (to < |q| ==> q[to] == AMPERSAND)
    ensures FirstFrom(q, AMPERSAND, from) == to && SetArgument(parameters, q, from, to) == parameters[key := s]
  {
    PairPositions(q, from, key, Encode(s), eq, to);
    DecodeValue(q, from, key, s, eq, to);
    ArgumentIs(parameters, q, from, to, eq, key, s);
  }

  /** A rendered pair with a free key, up to a '&' or the end, sets that key to that value. */
  lemma ArgumentOfPair(parameters: Parameters, q: seq<Byte>, from: nat, p: Pair, to: nat)
    requires IsFree(p.0) && IsAt(q, from, RenderPair(p))
    requires to == from + |RenderPair(p)| && (to < |q| ==> q[to] == AMPERSAND)
    ensures FirstFrom(q, AMPERSAND, from) == to && SetArgument(parameters, q, from, to) == parameters[p.0 := p.1]
  {
    EncodedIsFree(p.1);
    ArgumentOfValue(parameters, q, from, p.0, p.1, from + |p.0|, to);
  }

  /** The first argument of a rendered rest. */
  lemma ParsePair(parameters: Parameters, q: seq<Byte>, from: nat, p: Pair, to: nat)
    requires IsFree(p.0) && IsAt(q, from, RenderPair(p))
    requires to == from + |RenderPair(p)| && (to < |q| ==> q[to] == AMPERSAND)
    ensures ParseFrom(parameters, q, from)
            == if to < |q| then ParseFrom(parameters[p.0 := p.1], q, to + 1) else parameters[p.0 := p.1]
  {
    ArgumentOfPair(parameters, q, from, p, to);
  }

  lemma SplitRendered(q: seq<Byte>, from: nat, arg: seq<Byte>, tail: seq<Byte>)
    requires IsAt(q, from, arg + ([AMPERSAND] + tail))
    ensures IsAt(q, from, arg) && q[from + |arg|] == AMPERSAND && IsAt(q, from + |arg| + 1, tail)
  {
    SplitAt(q, from, arg, [AMPERSAND] + tail);
    SplitAt(q, from + |arg|, [AMPERSAND], tail);
    ByteAt(q, from + |arg|, [AMPERSAND], 0);
  }

  /** The rest of a rendered body, from its k-th pair on, fills the text from a position to its end. */
  predicate EndsWith(q: seq<Byte>, from: nat, pairs: seq<Pair>, k: nat)
    requires k <= |pairs|
  {
    IsAt(q, from, RenderFrom(pairs, k)) && from + |RenderFrom(pairs, k)| == |q|
  }

  lemma NextPair(q: seq<Byte>, from: nat, pairs: seq<Pair>, k: nat) returns (to: nat)
    requires k < |pairs| && EndsWith(q, from, pairs, k)
    ensures IsAt(q, from, RenderPair(pairs[k])) && to == from + |RenderPair(pairs[k])|
    ensures if k + 1 < |pairs| then to < |q| && q[to] == AMPERSAND && EndsWith(q, to + 1, pairs, k + 1) else to == |q|
  {
    to := from + |RenderPair(pairs[k])|;
    if k + 1 < |pairs| {
      SplitRendered(q, from, RenderPair(pairs[k]), RenderFrom(pairs, k + 1));
    } else {
      assert RenderFrom(pairs, k) == RenderPair(pairs[k]);
    }
  }

  lemma {:induction false} ParseRendered(parameters: Parameters, q: seq<Byte>, from: nat, pairs: seq<Pair>, k: nat)
    requires k < |pairs| && forall i :: 0 <= i < |pairs| ==> IsFree(pairs[i].0)
    requires EndsWith(q, from, pairs, k)
    ensures ParseFrom(parameters, q, from) == SetAll(parameters, pairs, k)
    decreases |pairs| - k
  {
    var to := NextPair(q, from, pairs, k);
    ParsePair(parameters, q, from, pairs[k], to);
    if k + 1 < |pairs| {
      ParseRendered(parameters[pairs[k].0 := pairs[k].1], q, to + 1, pairs, k + 1);
    }
  }

  lemma {:induction false} SetAllLookup(parameters: Parameters, pairs: seq<Pair>, k: nat, key: seq<Byte>)
    requires k <= |pairs| && forall i, j :: 0 <= i < j < |pairs| ==> pairs[i].0 != pairs[j].0
    ensures var r := SetAll(parameters, pairs, k);
            && (key in r <==> key in parameters || exists i :: k <= i < |pairs| && pairs[i].0 == key)
            && (forall i :: k <= i < |pairs| && pairs[i].0 == key ==> r[key] == pairs[i].1)
            && (key in parameters && (forall i :: k <= i < |pairs| ==> pairs[i].0 != key) ==> r[key] == parameters[key])
    decreases |pairs| - k
  {
    if k < |pairs| {
      SetAllLookup(parameters[pairs[k].0 := pairs[k].1], pairs, k + 1, key);
    }
  }

  lemma SetAllRebuilds(pairs: seq<Pair>, m: Parameters)
    requires Enumerates(pairs, m)
    ensures SetAll(map[], pairs, 0) == m
  {
    forall k: seq<Byte>
      ensures k in SetAll(map[], pairs, 0) <==> k in m
      ensures k in m ==> SetAll(map[], pairs, 0)[k] == m[k]
    {
      SetAllLookup(map[], pairs, 0, k);
    }
  }

  /** No parsed key contains a separator. */
  lemma {:induction false} ParsedKeysAreFree(parameters: Parameters, q: seq<Byte>, from: nat)
    requires from <= |q| && forall k :: k in parameters ==> IsFree(k)
    ensures forall k :: k in ParseFrom(parameters, q, from) ==> IsFree(k)
    decreases |q| - from
  {
    var to := FirstFrom(q, AMPERSAND, from);
    FirstFromIsFirst(q, AMPERSAND, from);
    FirstFromIsFirst(q, EQUALS, from);
    assert FirstFrom(q, EQUALS, from) < to ==> IsFree(q[from..FirstFrom(q, EQUALS, from)]);
    if to < |q| {
      ParsedKeysAreFree(SetArgument(parameters, q, from, to), q, to + 1);
    }
  }

  /** Parsing a rendered body gives back the parameter map, in whatever order it was iterated,
      exactly when no key contains '&' or '='. Values are arbitrary. */
  lemma RoundTrip(m: Parameters, pairs: seq<Pair>)
    requires Enumerates(pairs, m)
    ensures Parse(Render(pairs)) == m <==> forall k :: k in m ==> IsFree(k)
  {
    if forall k :: k in m ==> IsFree(k) {
      if pairs == [] {
        assert m == map[];
      } else {
        ParseRendered(map[], Render(pairs), 0, pairs, 0);
        SetAllRebuilds(pairs, m);
      }
    } else {
      ParsedKeysAreFree(map[], Render(pairs), 0);
    }
  }

  /** Whatever query was parsed, rendering its parameters and parsing again changes nothing. */
  lemma ParseIsStable(q: seq<Byte>, pairs: seq<Pair>)
    requires Enumerates(pairs, Parse(q))
    ensures Parse(Render(pairs)) == Parse(q)
  {
    ParsedKeysAreFree(map[], q, 0);
    RoundTrip(Parse(q), pairs);
  }

  /** The two handlers together: a GET body posted back sets the same parameters. */
  method PostBack(m: Parameters, pairs: seq<Pair>) returns (parameters: Parameters)
    requires Enumerates(pairs, m) && forall k :: k in m ==> IsFree(k)
    ensures parameters == m
  {
    var body := BuildBody(pairs);
    parameters := ParseQuery(body);
    RoundTrip(m, pairs);
  }
}
