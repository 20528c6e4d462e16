/**
 AES-GCM (section 7 of NIST SP 800-38D) as the firmware uses it, with nothing assumed of the cipher: the tag it
 computes over a fixed plaintext for an initialisation vector, and the counter-mode stream it adds to a message.
 */
module Gcm {
  datatype Cipher = Cipher(tag: seq<bv8> -> seq<bv8>, stream: (seq<bv8>, nat) -> bv8)

  function XorByte(a: bv8, b: bv8): bv8 {
    a ^ b
  }

  // Counter mode is its own inverse: this decrypts and encrypts.
  function Crypt(cipher: Cipher, iv: seq<bv8>, text: seq<bv8>): (s: seq<bv8>)
    ensures |s| == |text|
  {
    seq(|text|, i requires 0 <= i < |text| => XorByte(text[i], cipher.stream(iv, i)))
  }

  predicate Reveals(cipher: Cipher, iv: seq<bv8>, text: seq<bv8>, crypt: seq<bv8>, i: nat)
    requires i < |text| == |crypt|
  {
    text[i] ^ crypt[i] == cipher.stream(iv, i)
  }

  // Text and cipher text together give the stream of this vector at each place.
  lemma CryptRevealsStream(cipher: Cipher, iv: seq<bv8>, text: seq<bv8>)
    ensures forall i :: 0 <= i < |text| ==> text[i] ^ Crypt(cipher, iv, text)[i] == cipher.stream(iv, i)
  {
    hide XorByte;
    forall i | 0 <= i < |text|
      ensures text[i] ^ Crypt(cipher, iv, text)[i] == cipher.stream(iv, i)
    {
      XorReveals(text[i], cipher.stream(iv, i));
    }
  }

  // And no other answer of that length does.
  lemma CryptIsOnly(cipher: Cipher, iv: seq<bv8>, text: seq<bv8>, other: seq<bv8>)
    requires |other| == |text| && forall i :: 0 <= i < |text| ==> Reveals(cipher, iv, text, other, i)
    ensures other == Crypt(cipher, iv, text)
  {
    hide Reveals, Crypt, XorByte;
    forall i | 0 <= i < |text|
      ensures other[i] == Crypt(cipher, iv, text)[i]
    {
      OnlyByte(cipher, iv, text, other, i);
    }
  }

  lemma OnlyByte(cipher: Cipher, iv: seq<bv8>, text: seq<bv8>, other: seq<bv8>, i: nat)
    requires i < |text| == |other| && Reveals(cipher, iv, text, other, i)
    ensures other[i] == Crypt(cipher, iv, text)[i]
  {
    XorCancels(text[i], other[i], cipher.stream(iv, i));
  }

  lemma XorReveals(a: bv8, b: bv8)
    ensures a ^ XorByte(a, b) == b
  {}

  lemma XorCancels(a: bv8, b: bv8, c: bv8)
    requires a ^ b == c
    ensures b == XorByte(a, c)
  {}

  lemma XorTwice(a: bv8, b: bv8)
    ensures XorByte(XorByte(a, b), b) == a
  {}

  lemma CryptTwice(cipher: Cipher, iv: seq<bv8>, text: seq<bv8>)
    ensures Crypt(cipher, iv, Crypt(cipher, iv, text)) == text
  {
    forall i | 0 <= i < |text|
      ensures Crypt(cipher, iv, Crypt(cipher, iv, text))[i] == text[i]
    {
      XorTwice(text[i], cipher.stream(iv, i));
    }
  }
}
