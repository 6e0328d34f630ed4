/**
 * Decoding a bit string with a prefix-free code table: bits are appended to a
 * buffer, and whenever the buffer is a code its character is emitted and the
 * buffer cleared (lesson03/B_Huffman.java).
 */
module Huffman {
  import opened Common

  /** The codes of the (character, code) pairs, in input order. */
  function Codes(pairs: seq<(char, string)>): (r: seq<string>)
    ensures |r| == |pairs| && forall i :: 0 <= i < |pairs| ==> r[i] == pairs[i].1
  {
    seq(|pairs|, i requires 0 <= i < |pairs| => pairs[i].1)
  }

  /**
   * The code table as the decoder builds it: each (character, code) pair is
   * put into a map from code to character, so the table holds every code and
   * maps it to the character of the last pair with that code.
   */
  function Table(pairs: seq<(char, string)>): (t: map<string, char>)
    ensures forall code :: code in t <==> code in Codes(pairs)
    ensures forall code :: code in t ==> t[code] == pairs[LastIndexOf(Codes(pairs), code)].0
  {
    if |pairs| == 0 then map[]
    else
      var init := pairs[..|pairs| - 1];
      assert Codes(pairs) == Codes(init) + [pairs[|pairs| - 1].1];
      Table(init)[pairs[|pairs| - 1].1 := pairs[|pairs| - 1].0]
  }

  /**
   * What the decoding loop emits from `bits` when its buffer already holds
   * `buffer`: one character each time buffer + next bit is a code.
   */
  function Go(t: map<string, char>, buffer: string, bits: string): string
    decreases |bits|
  {
    if |bits| == 0 then ""
    else
      var b := buffer + [bits[0]];
      if b in t then [t[b]] + Go(t, "", bits[1..]) else Go(t, b, bits[1..])
  }

  /** The decoded text: the loop started with an empty buffer. */
  function Decode(t: map<string, char>, bits: string): string {
    Go(t, "", bits)
  }

  /** No code is a proper prefix of another code (the empty code is excluded). */
  predicate PrefixFree(t: map<string, char>) {
    "" !in t &&
    forall a, b :: a in t && b in t && |a| < |b| ==> a != b[..|a|]
  }

  /** The bit string of a sequence of codes, one after the other. */
  function Concat(words: seq<string>): string {
    if |words| == 0 then "" else words[0] + Concat(words[1..])
  }

  /** The characters a sequence of codes stands for. */
  function Chars(t: map<string, char>, words: seq<string>): string
    requires forall k :: 0 <= k < |words| ==> words[k] in t
  {
    if |words| == 0 then "" else [t[words[0]]] + Chars(t, words[1..])
  }

  /**
   * Reading the rest `w` of a code whose beginning is in the buffer emits
   * exactly that code's character, then continues with an empty buffer: no
   * intermediate buffer is a code, because the code is prefix-free.
   */
  lemma {:induction false} OneCode(t: map<string, char>, buffer: string, w: string, rest: string)
    requires PrefixFree(t) && buffer + w in t && |w| >= 1
    ensures Go(t, buffer, w + rest) == [t[buffer + w]] + Go(t, "", rest)
    decreases |w|
  {
    var bits := w + rest;
    var b := buffer + [bits[0]];
    assert bits[1..] == w[1..] + rest;
    if |w| == 1 {
      assert b == buffer + w;
    } else {
      var code := buffer + w;
      assert b == code[..|b|];
      assert b !in t;
      assert b + w[1..] == code;
      OneCode(t, b, w[1..], rest);
    }
  }

  /** Round trip: decoding the concatenated codes of a text gives the text back. */
  lemma {:induction false} DecodeConcat(t: map<string, char>, words: seq<string>)
    requires PrefixFree(t) && forall k :: 0 <= k < |words| ==> words[k] in t
    ensures Decode(t, Concat(words)) == Chars(t, words)
    decreases |words|
  {
    if |words| > 0 {
      assert "" + words[0] == words[0];
      OneCode(t, "", words[0], Concat(words[1..]));
      DecodeConcat(t, words[1..]);
    }
  }

  /** Every emitted character consumed at least one bit. */
  lemma {:induction false} DecodeShorter(t: map<string, char>, buffer: string, bits: string)
    ensures |Go(t, buffer, bits)| <= |bits|
    decreases |bits|
  {
    if |bits| > 0 {
      DecodeShorter(t, "", bits[1..]);
      DecodeShorter(t, buffer + [bits[0]], bits[1..]);
    }
  }

  /** Bits that never complete a code are dropped: no prefix of buffer + bits is a code. */
  lemma {:induction false} TrailingDropped(t: map<string, char>, buffer: string, bits: string)
    requires forall j :: 0 < j <= |bits| ==> buffer + bits[..j] !in t
    ensures Go(t, buffer, bits) == ""
    decreases |bits|
  {
    if |bits| > 0 {
      var b := buffer + [bits[0]];
      assert b == buffer + bits[..1];
      forall j | 0 < j <= |bits[1..]|
        ensures b + bits[1..][..j] !in t
      {
        assert b + bits[1..][..j] == buffer + bits[..j + 1];
      }
      TrailingDropped(t, b, bits[1..]);
    }
  }

  /** A complete text followed by bits that complete no code decodes to the text alone. */
  lemma {:induction false} DecodeWithTrailer(t: map<string, char>, words: seq<string>, junk: string)
    requires PrefixFree(t) && forall k :: 0 <= k < |words| ==> words[k] in t
    requires forall j :: 0 < j <= |junk| ==> junk[..j] !in t
    ensures Decode(t, Concat(words) + junk) == Chars(t, words)
    decreases |words|
  {
    if |words| == 0 {
      forall j | 0 < j <= |junk|
        ensures "" + junk[..j] !in t
      {
        assert "" + junk[..j] == junk[..j];
      }
      assert Concat(words) + junk == junk;
      TrailingDropped(t, "", junk);
    } else {
      assert Concat(words) + junk == words[0] + (Concat(words[1..]) + junk);
      assert "" + words[0] == words[0];
      OneCode(t, "", words[0], Concat(words[1..]) + junk);
      DecodeWithTrailer(t, words[1..], junk);
    }
  }

  /**
   * decode: the table is filled from the pairs, then the encoded string is
   * read bit by bit through the temporary buffer.
   */
  method DecodeText(pairs: seq<(char, string)>, encoded: string) returns (result: string)
    ensures result == Decode(Table(pairs), encoded)
  {
    var codeToChar := map[];
    var i := 0;
    while i < |pairs|
      invariant 0 <= i <= |pairs|
      invariant codeToChar == Table(pairs[..i])
    {
      assert pairs[..i + 1][..i] == pairs[..i];
      codeToChar := codeToChar[pairs[i].1 := pairs[i].0];
      i := i + 1;
    }
    assert pairs[..|pairs|] == pairs;
    result := Run(codeToChar, encoded);
  }

  /** The decoding loop over the encoded string. */
  method Run(codeToChar: map<string, char>, encoded: string) returns (result: string)
    ensures result == Decode(codeToChar, encoded)
  {
    result := "";
    var tempCode := "";
    var i := 0;
    while i < |encoded|
      invariant 0 <= i <= |encoded|
      invariant result + Go(codeToChar, tempCode, encoded[i..]) == Decode(codeToChar, encoded)
    {
      assert encoded[i..][1..] == encoded[i + 1..];
      tempCode := tempCode + [encoded[i]];
      if tempCode in codeToChar {
        result := result + [codeToChar[tempCode]];
        tempCode := "";
      }
      i := i + 1;
    }
  }
}
