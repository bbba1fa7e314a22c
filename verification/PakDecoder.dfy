// The run-length and back-reference decoder for Daikatana PAK entries.
module PakDecoder {
  import opened Bytes

  const END_OF_STREAM: Byte := 255

  // ----- what an encoded stream says -----

  datatype Token =
    | Literal(bytes: seq<Byte>)
    | ZeroRun(count: nat)
    | ValueRun(count: nat, value: Byte)
    | CopyBack(size: nat, offset: nat)

  // The tokens an opcode can express after `produced` bytes of output.
  predicate Expressible(t: Token, produced: nat) {
    match t
    case Literal(bytes) => 1 <= |bytes| <= 64
    case ZeroRun(count) => 2 <= count <= 65
    case ValueRun(count, _) => 2 <= count <= 65
    case CopyBack(size, offset) => 2 <= size <= 64 && 2 <= offset <= 257 && size <= offset <= produced
  }

  function Repeated(value: Byte, count: nat): (r: seq<Byte>)
    ensures |r| == count
  {
    seq(count, _ => value)
  }

  // The classic meaning of a back-reference: `count` times, append the byte that
  // lies `offset` before the end.
  function CopyByteByByte(output: seq<Byte>, offset: nat, count: nat): (r: seq<Byte>)
    requires 1 <= offset <= |output|
    ensures |r| == |output| + count
    decreases count
  {
    if count == 0 then output
    else CopyByteByByte(output + [output[|output| - offset]], offset, count - 1)
  }

  function TokenMeaning(output: seq<Byte>, t: Token): seq<Byte>
    requires Expressible(t, |output|)
  {
    match t
    case Literal(bytes) => output + bytes
    case ZeroRun(count) => output + Repeated(0, count)
    case ValueRun(count, value) => output + Repeated(value, count)
    case CopyBack(size, offset) => CopyByteByByte(output, offset, size)
  }

  predicate WellFormed(output: seq<Byte>, tokens: seq<Token>)
    decreases |tokens|
  {
    |tokens| == 0
    || (Expressible(tokens[0], |output|) && WellFormed(TokenMeaning(output, tokens[0]), tokens[1..]))
  }

  // The output after `tokens`, starting with `output`.
  function Meaning(output: seq<Byte>, tokens: seq<Token>): seq<Byte>
    requires WellFormed(output, tokens)
    decreases |tokens|
  {
    if |tokens| == 0 then output else Meaning(TokenMeaning(output, tokens[0]), tokens[1..])
  }

  function EncodeToken(t: Token): (r: seq<Byte>)
    requires exists produced :: Expressible(t, produced)
    ensures |r| > 0 && r[0] != END_OF_STREAM
  {
    match t
    case Literal(bytes) => [|bytes| - 1] + bytes
    case ZeroRun(count) => [count + 62]
    case ValueRun(count, value) => [count + 126, value]
    case CopyBack(size, offset) => [size + 190, offset - 2]
  }

  function Encode(output: seq<Byte>, tokens: seq<Token>): seq<Byte>
    requires WellFormed(output, tokens)
    decreases |tokens|
  {
    if |tokens| == 0 then []
    else EncodeToken(tokens[0]) + Encode(TokenMeaning(output, tokens[0]), tokens[1..])
  }

  lemma NoTokens(output: seq<Byte>)
    ensures WellFormed(output, []) && Meaning(output, []) == output && Encode(output, []) == []
  {
  }

  lemma FirstTokenThenRest(output: seq<Byte>, t: Token, rest: seq<Token>)
    requires Expressible(t, |output|) && WellFormed(TokenMeaning(output, t), rest)
    ensures WellFormed(output, [t] + rest)
    ensures Meaning(output, [t] + rest) == Meaning(TokenMeaning(output, t), rest)
    ensures Encode(output, [t] + rest) == EncodeToken(t) + Encode(TokenMeaning(output, t), rest)
  {
    hide TokenMeaning, EncodeToken, Expressible;
    assert ([t] + rest)[1..] == rest;
  }

  // ----- the decoder -----

  // Overrun: an opcode's operands would lie past the end of the input.
  datatype Outcome = Finished(output: seq<Byte>) | Overrun

  function Decode(bytes: seq<Byte>, output: seq<Byte>): Outcome
    decreases |bytes|
  {
    if |bytes| == 0 || bytes[0] == END_OF_STREAM then Finished(output)
    else
      var op: int := bytes[0];
      if op <= 63 then
        if op + 1 > |bytes| then Finished(output)
        else if op + 2 > |bytes| then Overrun
        else Decode(bytes[op + 2..], output + bytes[1..op + 2])
      else if op <= 127 then
        Decode(bytes[1..], output + Repeated(0, op - 62))
      else if |bytes| < 2 then Overrun
      else if op <= 191 then
        Decode(bytes[2..], output + Repeated(bytes[1], op - 126))
      else
        var size: int := op - 192 + 2;
        var offset := bytes[1] as int + 2;
        if size > |output| || size > offset || offset > |output| then Finished(output)
        else Decode(bytes[2..], output + output[|output| - offset..|output| - offset + size])
  }

  // The decoding loop.
  method DecodeBytes(compressed: seq<Byte>) returns (r: Outcome)
    ensures r == Decode(compressed, [])
  {
    hide Repeated;
    var bytes := compressed;
    var output: seq<Byte> := [];
    while |bytes| > 0
      invariant Decode(compressed, []) == Decode(bytes, output)
      decreases |bytes|
    {
      var op: int := bytes[0];
      if op == END_OF_STREAM {
        break;
      }
      if op <= 63 {
        if op + 1 > |bytes| {
          break;
        }
        if op + 2 > |bytes| {
          return Overrun;
        }
        output := output + bytes[1..op + 2];
        bytes := bytes[op + 2..];
      } else if op <= 127 {
        output := output + Repeated(0, op - 62);
        bytes := bytes[1..];
      } else if |bytes| < 2 {
        return Overrun;
      } else if op <= 191 {
        output := output + Repeated(bytes[1], op - 126);
        bytes := bytes[2..];
      } else {
        var size: int := op - 192 + 2;
        var offset := bytes[1] as int + 2;
        if size > |output| || size > offset {
          break;
        }
        if offset > |output| {
          break;
        }
        output := output + output[|output| - offset..|output| - offset + size];
        bytes := bytes[2..];
      }
    }
    r := Finished(output);
  }

  // ----- decoding inverts encoding -----

  // Inserting the referenced bytes in bulk is copying them one by one, as long
  // as the reference does not reach into its own copy.
  lemma {:induction false} BulkCopyIsByteByByte(output: seq<Byte>, offset: nat, size: nat)
    requires 1 <= offset <= |output| && size <= offset
    ensures CopyByteByByte(output, offset, size) == output + output[|output| - offset..|output| - offset + size]
    decreases size
  {
    if size > 0 {
      var from := |output| - offset;
      var next := output + [output[from]];
      CopyAppends(output, offset, size - 1);
      BulkCopyIsByteByByte(output, offset, size - 1);
      assert output[from..from + size] == output[from..from + size - 1] + [output[from + size - 1]];
    }
  }

  // Copying one byte more appends the byte `offset` before the end.
  lemma {:induction false} CopyAppends(output: seq<Byte>, offset: nat, count: nat)
    requires 1 <= offset <= |output|
    ensures var sofar := CopyByteByByte(output, offset, count);
            CopyByteByByte(output, offset, count + 1) == sofar + [sofar[|sofar| - offset]]
    decreases count
  {
    if count > 0 {
      CopyAppends(output + [output[|output| - offset]], offset, count - 1);
    }
  }

  lemma DecodesLiteral(literal: seq<Byte>, output: seq<Byte>, rest: seq<Byte>)
    requires 1 <= |literal| <= 64
    ensures Decode([|literal| - 1] + literal + rest, output) == Decode(rest, output + literal)
  {
    var bytes := [|literal| - 1] + literal + rest;
    assert bytes[1..|literal| + 1] == literal;
    assert bytes[|literal| + 1..] == rest;
  }

  lemma DecodesCopy(size: nat, offset: nat, output: seq<Byte>, rest: seq<Byte>)
    requires Expressible(CopyBack(size, offset), |output|)
    ensures Decode([size + 190, offset - 2] + rest, output) == Decode(rest, CopyByteByByte(output, offset, size))
  {
    hide CopyByteByByte;
    var bytes := [size + 190, offset - 2] + rest;
    assert bytes[2..] == rest;
    BulkCopyIsByteByByte(output, offset, size);
  }

  lemma DecodesRun(count: nat, value: Byte, output: seq<Byte>, rest: seq<Byte>)
    requires 2 <= count <= 65
    ensures Decode([count + 62] + rest, output) == Decode(rest, output + Repeated(0, count))
    ensures Decode([count + 126, value] + rest, output) == Decode(rest, output + Repeated(value, count))
  {
    hide Repeated;
    assert ([count + 62] + rest)[1..] == rest;
    assert ([count + 126, value] + rest)[2..] == rest;
  }

  lemma DecodesToken(t: Token, output: seq<Byte>, rest: seq<Byte>)
    requires Expressible(t, |output|)
    ensures Decode(EncodeToken(t) + rest, output) == Decode(rest, TokenMeaning(output, t))
  {
    hide Decode, Repeated, CopyByteByByte;
    match t {
      case Literal(literal) => DecodesLiteral(literal, output, rest);
      case ZeroRun(count) => DecodesRun(count, 0, output, rest);
      case ValueRun(count, value) => DecodesRun(count, value, output, rest);
      case CopyBack(size, offset) => DecodesCopy(size, offset, output, rest);
    }
  }

  lemma FirstOfTokens(tokens: seq<Token>, output: seq<Byte>)
    requires WellFormed(output, tokens) && |tokens| > 0
    ensures Expressible(tokens[0], |output|)
    ensures var next := TokenMeaning(output, tokens[0]);
            && WellFormed(next, tokens[1..])
            && Meaning(output, tokens) == Meaning(next, tokens[1..])
            && Encode(output, tokens) == EncodeToken(tokens[0]) + Encode(next, tokens[1..])
  {
    hide TokenMeaning, EncodeToken, Expressible;
  }

  lemma Associate(a: seq<Byte>, b: seq<Byte>, c: seq<Byte>)
    ensures a + b + c == a + (b + c)
    ensures [] + c == c
  {
  }

  lemma {:induction false} DecodesTokens(tokens: seq<Token>, output: seq<Byte>, rest: seq<Byte>)
    requires WellFormed(output, tokens)
    ensures Decode(Encode(output, tokens) + rest, output) == Decode(rest, Meaning(output, tokens))
    decreases |tokens|
  {
    hide *;
    if |tokens| == 0 {
      assert tokens == [];
      NoTokens(output);
      Associate([], [], rest);
    } else {
      FirstOfTokens(tokens, output);
      var next := TokenMeaning(output, tokens[0]);
      var tail := Encode(next, tokens[1..]);
      DecodesToken(tokens[0], output, tail + rest);
      DecodesTokens(tokens[1..], next, rest);
      Associate(EncodeToken(tokens[0]), tail, rest);
    }
  }

  // A well-formed token stream, ended by 255 and followed by anything, or by
  // nothing at all, decodes to what the tokens mean.
  lemma DecodingInvertsEncoding(tokens: seq<Token>, trailing: seq<Byte>)
    requires WellFormed([], tokens)
    ensures Decode(Encode([], tokens) + [END_OF_STREAM] + trailing, []) == Finished(Meaning([], tokens))
    ensures Decode(Encode([], tokens), []) == Finished(Meaning([], tokens))
  {
    DecodesTokens(tokens, [], [END_OF_STREAM] + trailing);
    DecodesTokens(tokens, [], []);
    assert Encode([], tokens) + [] == Encode([], tokens);
    assert Encode([], tokens) + [END_OF_STREAM] + trailing == Encode([], tokens) + ([END_OF_STREAM] + trailing);
  }

  // ----- every decoding is a token stream -----

  // The input at which the decoder stops without consuming it.
  predicate Stops(bytes: seq<Byte>, output: seq<Byte>) {
    || |bytes| == 0
    || bytes[0] == END_OF_STREAM
    || (bytes[0] <= 63 && bytes[0] + 1 > |bytes|)
    || (bytes[0] >= 192 && |bytes| >= 2 && BadReference(bytes[0], bytes[1], |output|))
  }

  // A reference longer than its distance, or from before the output's beginning.
  predicate BadReference(op: int, distance: int, produced: nat) {
    op - 190 > distance + 2 || distance + 2 > produced
  }

  // The operands are there, and a reference is a good one.
  lemma OperandsAreThere(bytes: seq<Byte>, output: seq<Byte>)
    requires Decode(bytes, output).Finished? && !Stops(bytes, output)
    ensures |bytes| > 0 && bytes[0] <= 254
    ensures bytes[0] <= 63 ==> bytes[0] + 2 <= |bytes|
    ensures bytes[0] >= 128 ==> |bytes| >= 2
    ensures bytes[0] >= 192 ==> !BadReference(bytes[0], bytes[1], |output|)
  {
  }

  lemma Fronts(bytes: seq<Byte>, n: nat)
    requires n <= |bytes|
    ensures bytes == bytes[..n] + bytes[n..]
    ensures n == 1 ==> bytes[..n] == [bytes[0]]
    ensures n == 2 ==> bytes[..n] == [bytes[0], bytes[1]]
    ensures n >= 1 ==> bytes[..n] == [bytes[0]] + bytes[1..n]
  {
  }

  lemma FirstToken(bytes: seq<Byte>, output: seq<Byte>) returns (t: Token, rest: seq<Byte>)
    requires Decode(bytes, output).Finished? && !Stops(bytes, output)
    ensures Expressible(t, |output|)
    ensures bytes == EncodeToken(t) + rest && |rest| < |bytes|
  {
    hide Decode, Stops;
    OperandsAreThere(bytes, output);
    var op: int := bytes[0];
    var n: nat := if op <= 63 then op + 2 else if op <= 127 then 1 else 2;
    Fronts(bytes, n);
    rest := bytes[n..];
    if op <= 63 {
      t := Literal(bytes[1..n]);
    } else if op <= 127 {
      t := ZeroRun(op - 62);
    } else if op <= 191 {
      t := ValueRun(op - 126, bytes[1]);
    } else {
      t := CopyBack(op - 190, bytes[1] as int + 2);
    }
    assert Expressible(t, |output|);
  }

  // Where decoding ends early. A literal opcode counts its own byte as one of those that
  // must be there: with one byte too few it runs out of the input, with fewer it stops.
  lemma LiteralCutShort(op: Byte, rest: seq<Byte>, output: seq<Byte>)
    requires op <= 63 && |rest| <= op
    ensures Decode([op] + rest, output) == if |rest| == op then Overrun else Finished(output)
  {
    var bytes := [op] + rest;
    assert bytes[0] == op && |bytes| == |rest| + 1;
  }

  // A value run or a reference without its operand runs out of the input.
  lemma OperandMissing(op: Byte, output: seq<Byte>)
    requires 128 <= op <= 254
    ensures Decode([op], output) == Overrun
  {
  }

  // A reference that is longer than its distance, or reaches back behind the beginning of
  // the output, ends the decoding.
  lemma BadReferenceStops(op: Byte, distance: Byte, rest: seq<Byte>, output: seq<Byte>)
    requires 192 <= op <= 254
    requires (op as int - 190) > distance as int + 2 || distance as int + 2 > |output|
    ensures Decode([op, distance] + rest, output) == Finished(output)
  {
    var bytes := [op, distance] + rest;
    assert bytes[0] == op && bytes[1] == distance;
  }

  lemma StopsAtOnce(bytes: seq<Byte>, output: seq<Byte>)
    requires Stops(bytes, output)
    ensures Decode(bytes, output) == Finished(output) && bytes == [] + bytes
  {
  }

  // Whatever the decoder finishes on, its input was the encoding of a well-formed
  // token stream up to where it stopped, and its output is what those tokens mean.
  lemma {:induction false} DecodingIsParsing(bytes: seq<Byte>, output: seq<Byte>)
    returns (tokens: seq<Token>, rest: seq<Byte>)
    requires Decode(bytes, output).Finished?
    ensures WellFormed(output, tokens)
    ensures bytes == Encode(output, tokens) + rest
    ensures Decode(bytes, output) == Finished(Meaning(output, tokens))
    ensures Stops(rest, Meaning(output, tokens))
    decreases |bytes|
  {
    hide *;
    if Stops(bytes, output) {
      StopsAtOnce(bytes, output);
      tokens, rest := [], bytes;
      NoTokens(output);
    } else {
      var t, tail := FirstToken(bytes, output);
      DecodesToken(t, output, tail);
      var more;
      more, rest := DecodingIsParsing(tail, TokenMeaning(output, t));
      FirstTokenThenRest(output, t, more);
      tokens := [t] + more;
      assert EncodeToken(t) + Encode(TokenMeaning(output, t), more) + rest
          == EncodeToken(t) + (Encode(TokenMeaning(output, t), more) + rest);
    }
  }

  // ----- one byte stream, one token stream -----

  lemma FirstTokenUnique(t: Token, u: Token, a: seq<Byte>, b: seq<Byte>, produced: nat)
    requires Expressible(t, produced) && Expressible(u, produced)
    requires EncodeToken(t) + a == EncodeToken(u) + b
    ensures t == u && a == b
  {
    var left, right := EncodeToken(t) + a, EncodeToken(u) + b;
    assert left[0] == right[0];
    assert |EncodeToken(t)| == |EncodeToken(u)|;
    var n := |EncodeToken(t)|;
    assert left[..n] == EncodeToken(t) && right[..n] == EncodeToken(u);
    assert left[n..] == a && right[n..] == b;
    if t.Literal? {
      assert EncodeToken(t)[1..] == t.bytes && EncodeToken(u)[1..] == u.bytes;
    } else if n == 2 {
      assert left[1] == right[1];
    }
  }

  // Two terminated streams with the same bytes have the same tokens.
  lemma {:induction false} TokenStreamsAreUnique(ts: seq<Token>, us: seq<Token>, output: seq<Byte>,
                                             a: seq<Byte>, b: seq<Byte>)
    requires WellFormed(output, ts) && WellFormed(output, us)
    requires Encode(output, ts) + [END_OF_STREAM] + a == Encode(output, us) + [END_OF_STREAM] + b
    ensures ts == us && a == b
    decreases |ts|
  {
    hide Expressible, TokenMeaning, EncodeToken;
    var left := Encode(output, ts) + [END_OF_STREAM] + a;
    var right := Encode(output, us) + [END_OF_STREAM] + b;
    if |ts| == 0 || |us| == 0 {
      assert left[0] == right[0];
      assert |ts| == |us| == 0;
      assert left[1..] == a && right[1..] == b;
    } else {
      var t, u := ts[0], us[0];
      var tailT := Encode(TokenMeaning(output, t), ts[1..]) + [END_OF_STREAM] + a;
      var tailU := Encode(TokenMeaning(output, u), us[1..]) + [END_OF_STREAM] + b;
      assert left == EncodeToken(t) + tailT && right == EncodeToken(u) + tailU;
      FirstTokenUnique(t, u, tailT, tailU, |output|);
      TokenStreamsAreUnique(ts[1..], us[1..], TokenMeaning(output, t), a, b);
      assert ts == [t] + ts[1..] && us == [u] + us[1..];
    }
  }

  // ----- encoders -----

  function Shorter(a: nat, b: nat): nat {
    if a < b then a else b
  }

  // An encoder that only uses literals.
  function PackLiterals(data: seq<Byte>): seq<Token>
    decreases |data|
  {
    if |data| == 0 then []
    else [Literal(data[..Shorter(|data|, 64)])] + PackLiterals(data[Shorter(|data|, 64)..])
  }

  // The length of the run at the front, as far as `limit`.
  function RunLength(data: seq<Byte>, limit: nat): (r: nat)
    requires |data| > 0 && limit > 0
    ensures 1 <= r <= limit && r <= |data|
    ensures forall i :: 0 <= i < r ==> data[i] == data[0]
    ensures r < limit && r < |data| ==> data[r] != data[0]
    decreases limit
  {
    if limit == 1 || |data| == 1 || data[1] != data[0] then 1
    else
      var r := RunLength(data[1..], limit - 1);
      assert forall i :: 1 <= i < r + 1 ==> data[i] == data[1..][i - 1];
      r + 1
  }

  // An encoder that turns every run into a run token, the longest first.
  function PackRuns(data: seq<Byte>): seq<Token>
    decreases |data|
  {
    if |data| == 0 then []
    else
      var n := RunLength(data, 65);
      [RunToken(data[0], n)] + PackRuns(data[n..])
  }

  lemma {:induction false} LiteralsMeanData(output: seq<Byte>, data: seq<Byte>)
    ensures WellFormed(output, PackLiterals(data)) && Meaning(output, PackLiterals(data)) == output + data
    decreases |data|
  {
    if |data| > 0 {
      var n := Shorter(|data|, 64);
      LiteralsMeanData(output + data[..n], data[n..]);
      assert output + data[..n] + data[n..] == output + data;
      assert PackLiterals(data)[1..] == PackLiterals(data[n..]);
    } else {
      assert output + data == output;
    }
  }

  function RunToken(value: Byte, n: nat): Token {
    if n == 1 then Literal([value]) else if value == 0 then ZeroRun(n) else ValueRun(n, value)
  }

  lemma RunTokenMeansRun(output: seq<Byte>, data: seq<Byte>, n: nat)
    requires 1 <= n <= 65 && n <= |data| && forall i :: 0 <= i < n ==> data[i] == data[0]
    ensures Expressible(RunToken(data[0], n), |output|)
    ensures TokenMeaning(output, RunToken(data[0], n)) == output + data[..n]
  {
    assert data[..n] == Repeated(data[0], n);
    if n == 1 {
      assert data[..1] == [data[0]];
    }
  }

  lemma NothingToPack()
    ensures PackRuns([]) == []
  {
  }

  // The first token of a packed string stands for its first run.
  lemma PacksFirstRun(output: seq<Byte>, data: seq<Byte>) returns (n: nat, t: Token)
    requires |data| > 0
    ensures 1 <= n <= |data| && PackRuns(data) == [t] + PackRuns(data[n..])
    ensures Expressible(t, |output|) && TokenMeaning(output, t) == output + data[..n]
  {
    n := RunLength(data, 65);
    t := RunToken(data[0], n);
    RunTokenMeansRun(output, data, n);
  }

  lemma {:induction false} RunsMeanData(output: seq<Byte>, data: seq<Byte>)
    ensures WellFormed(output, PackRuns(data)) && Meaning(output, PackRuns(data)) == output + data
    decreases |data|
  {
    hide *;
    if |data| > 0 {
      var n, t := PacksFirstRun(output, data);
      RunsMeanData(output + data[..n], data[n..]);
      FirstTokenThenRest(output, t, PackRuns(data[n..]));
      assert output + data[..n] + data[n..] == output + data;
    } else {
      NothingToPack();
      NoTokens(output);
      assert output + data == output;
    }
  }

  // Every byte string survives being packed and decoded.
  lemma PackedDataDecodes(data: seq<Byte>, trailing: seq<Byte>)
    ensures WellFormed([], PackLiterals(data)) && WellFormed([], PackRuns(data))
    ensures Decode(Encode([], PackLiterals(data)) + [END_OF_STREAM] + trailing, []) == Finished(data)
    ensures Decode(Encode([], PackRuns(data)) + [END_OF_STREAM] + trailing, []) == Finished(data)
  {
    hide Decode, WellFormed, Meaning, Encode, PackLiterals, PackRuns;
    LiteralsMeanData([], data);
    RunsMeanData([], data);
    DecodingInvertsEncoding(PackLiterals(data), trailing);
    DecodingInvertsEncoding(PackRuns(data), trailing);
    assert [] + data == data;
  }
}
