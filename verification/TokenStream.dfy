// The compiled scripts' token streams: five bytes a token, a kind and a signed
// little-endian value (go-server/cmd/scratch/pvfshopgift/main.go and
// go-server/cmd/scratch/pvfjoustentry/main.go).
module TokenStream {
  import opened Arithmetic
  import opened Bytes
  import opened Sequences
  import opened Text

  const WIDTH := 5
  const INT_KIND: byte := 0
  const SECTION_KIND: byte := 3
  const STRING_KIND: byte := 6

  datatype Token = Token(kind: byte, value: int32)

  // Which of the archive's strings, by their number, are meant.
  type Names = int32 -> bool

  // The int32 that the low 32 bits of an int stand for.
  function Wrap32(v: int): (w: int32)
    ensures w == v <==> -TWO31 <= v < TWO31
  {
    ToSigned(v % TWO32)
  }

  lemma WrapsAround(v: int) returns (k: int)
    ensures Wrap32(v) == v + k * 0x1_0000_0000
  {
    var u := v % TWO32;
    k := if u >= TWO31 then -(v / TWO32) - 1 else -(v / TWO32);
    assert v == TWO32 * (v / TWO32) + u;
  }

  function TokenBytes(t: Token): (b: Text)
    ensures |b| == WIDTH
  {
    [t.kind] + LE(ToUnsigned(t.value), 4)
  }

  function TokenAt(raw: Text, i: nat): Token
    requires WIDTH * i + WIDTH <= |raw|
  {
    Pow256Values();
    FromLEBound(raw[WIDTH * i + 1..WIDTH * i + WIDTH]);
    Token(raw[WIDTH * i], ToSigned(FromLE(raw[WIDTH * i + 1..WIDTH * i + WIDTH])))
  }

  // The whole tokens of a stream; up to four bytes may follow them.
  function Tokens(raw: Text): (ts: seq<Token>)
    ensures |ts| == |raw| / WIDTH
  {
    seq(|raw| / WIDTH, i requires 0 <= i < |raw| / WIDTH => TokenAt(raw, i))
  }

  function Encode(ts: seq<Token>): (raw: Text)
    ensures |raw| == WIDTH * |ts|
  {
    if ts == [] then [] else TokenBytes(ts[0]) + Encode(ts[1..])
  }

  lemma TokenOfBytes(raw: Text, i: nat, t: Token)
    requires WIDTH * i + WIDTH <= |raw|
    ensures raw[WIDTH * i..WIDTH * i + WIDTH] == TokenBytes(t) <==> TokenAt(raw, i) == t
  {
    var b := raw[WIDTH * i..WIDTH * i + WIDTH];
    var value := raw[WIDTH * i + 1..WIDTH * i + WIDTH];
    assert b == [raw[WIDTH * i]] + value;
    assert TokenBytes(t)[1..] == LE(ToUnsigned(t.value), 4);
    Pow256Values();
    FromLEOfLE(ToUnsigned(t.value), 4);
    LEOfFromLE(value);
    FromLEBound(value);
    SignedOfUnsigned(t.value);
  }

  lemma SignedOfUnsigned(x: int32)
    ensures ToSigned(ToUnsigned(x)) == x
  {
  }

  lemma UnsignedOfSigned(u: uint32)
    ensures ToUnsigned(ToSigned(u)) == u
  {
  }

  // Whole tokens in front of a stream are its first tokens.
  lemma TokensOfConcat(a: Text, b: Text)
    requires |a| % WIDTH == 0
    ensures Tokens(a + b) == Tokens(a) + Tokens(b)
  {
    var n := |a| / WIDTH;
    SameQuotient(|a| + |b|, n + |b| / WIDTH, |b| % WIDTH, WIDTH);
    forall i | 0 <= i < |Tokens(a + b)| ensures Tokens(a + b)[i] == (Tokens(a) + Tokens(b))[i] {
      if i < n {
        HeadSlice(a, b, WIDTH * i + 1, WIDTH * i + WIDTH);
      } else {
        var j := i - n;
        assert |a| == WIDTH * n;
        TailSlice(a, b, WIDTH * j + 1, WIDTH * j + WIDTH);
      }
    }
  }

  // Encoding and reading are inverse to each other.
  lemma {:induction false} TokensOfEncode(ts: seq<Token>)
    ensures Tokens(Encode(ts)) == ts
  {
    if ts != [] {
      var first := TokenBytes(ts[0]);
      TokensOfConcat(first, Encode(ts[1..]));
      TokensOfEncode(ts[1..]);
      assert first[0..5] == first;
      TokenOfBytes(first, 0, ts[0]);
      assert Tokens(first) == [ts[0]];
    }
  }

  lemma {:induction false} EncodeOfTokens(raw: Text)
    requires |raw| % WIDTH == 0
    ensures Encode(Tokens(raw)) == raw
    decreases |raw|
  {
    if raw != [] {
      var first, rest := raw[..WIDTH], raw[WIDTH..];
      assert raw == first + rest;
      SameQuotient(|rest|, |raw| / WIDTH - 1, 0, WIDTH);
      TokensOfConcat(first, rest);
      EncodeOfTokens(rest);
      assert Tokens(first) == [TokenAt(first, 0)];
      assert first[0..5] == first;
      TokenOfBytes(first, 0, TokenAt(first, 0));
      assert Tokens(raw)[0] == TokenAt(first, 0) && Tokens(raw)[1..] == Tokens(rest);
    }
  }

  // A stream with one value overwritten.
  function Put(raw: Text, i: nat, v: int32): (r: Text)
    requires WIDTH * i + WIDTH <= |raw|
    ensures |r| == |raw|
  {
    raw[..WIDTH * i + 1] + LE(ToUnsigned(v), 4) + raw[WIDTH * i + WIDTH..]
  }

  lemma TokensOfPut(raw: Text, i: nat, v: int32)
    requires WIDTH * i + WIDTH <= |raw|
    ensures i < |Tokens(raw)|
    ensures Tokens(Put(raw, i, v)) == Tokens(raw)[i := Tokens(raw)[i].(value := v)]
  {
    MultipleIndex(i, |raw|);
    var r := Put(raw, i, v);
    var t := Token(raw[WIDTH * i], v);
    assert r[WIDTH * i..WIDTH * i + WIDTH] == TokenBytes(t);
    TokenOfBytes(r, i, t);
    forall j | 0 <= j < |Tokens(r)| && j != i ensures Tokens(r)[j] == Tokens(raw)[j] {
      MultipleIndex(j, |raw|);
      assert r[WIDTH * j..WIDTH * j + WIDTH] == raw[WIDTH * j..WIDTH * j + WIDTH];
      TokenOfBytes(raw, j, TokenAt(raw, j));
      TokenOfBytes(r, j, TokenAt(raw, j));
    }
  }

  lemma MultipleIndex(i: nat, n: nat)
    ensures WIDTH * i + WIDTH <= n <==> i < n / WIDTH
  {
  }

  method StoreBytes(out: array<byte>, at: nat, bytes: Text)
    requires at + |bytes| <= out.Length
    modifies out
    ensures out[..] == old(out[..])[..at] + bytes + old(out[..])[at + |bytes|..]
  {
    ghost var before := out[..];
    for k := 0 to |bytes|
      invariant out[..at] == before[..at] && out[at..at + k] == bytes[..k] && out[at + k..] == before[at + k..]
    {
      out[at + k] := bytes[k];
    }
    assert out[..] == out[..at] + out[at..at + |bytes|] + out[at + |bytes|..];
  }

  // binary.LittleEndian.PutUint32 on a token's value.
  method PutValue(out: array<byte>, i: nat, v: int32)
    requires WIDTH * i + WIDTH <= out.Length
    modifies out
    ensures out[..] == Put(old(out[..]), i, v)
  {
    StoreBytes(out, WIDTH * i + 1, LE(ToUnsigned(v), 4));
  }
}
