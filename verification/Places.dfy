/** The two models of a key: byte strings, and their places on the real line. */
module Places {
  import opened Coding
  import opened Separators
  import Keys = InternalKeys

  /** Bytes as the digits of a fraction to the base 257; digit 0 marks the end. */
  function Place(key: Bytes): (p: Keys.UserKey)
    ensures 0.0 <= p < 1.0
    decreases |key|
  {
    if |key| == 0 then 0.0 else (NumberOf(key[0]) as real + 1.0 + Place(key[1..])) / 257.0
  }

  lemma ByteOrder(a: Byte, b: Byte)
    ensures a < b <==> NumberOf(a) < NumberOf(b)
  {}

  /** Greater digits outweigh whatever follows. */
  lemma Digits(a: nat, p: real, b: nat, q: real)
    requires 0.0 <= p < 1.0 && 0.0 <= q < 1.0
    ensures a < b ==> (a as real + 1.0 + p) / 257.0 < (b as real + 1.0 + q) / 257.0
    ensures a == b ==> ((a as real + 1.0 + p) / 257.0 < (b as real + 1.0 + q) / 257.0 <==> p < q)
    ensures 0.0 < (b as real + 1.0 + q) / 257.0
  {}

  /** The bytewise order is that of the places. */
  lemma {:induction false} PlaceKeepsOrder(a: Bytes, b: Bytes)
    ensures Less(a, b) <==> Place(a) < Place(b)
    decreases |a|
  {
    hide NumberOf;
    if |a| > 0 && |b| > 0 {
      ByteOrder(a[0], b[0]);
      ByteOrder(b[0], a[0]);
      PlaceKeepsOrder(a[1..], b[1..]);
      Digits(NumberOf(a[0]), Place(a[1..]), NumberOf(b[0]), Place(b[1..]));
      Digits(NumberOf(b[0]), Place(b[1..]), NumberOf(a[0]), Place(a[1..]));
    } else if |b| > 0 {
      Digits(0, 0.0, NumberOf(b[0]), Place(b[1..]));
    }
  }

  /** A tag as the database writes it: a sequence number and one of the two types. */
  predicate Tagged(k: IKey) {
    k.tag % 256 <= 1
  }

  function Decoded(k: IKey): Keys.InternalKey {
    Keys.InternalKey(Place(k.user), k.tag / 256, if k.tag % 256 == 1 then Keys.Value else Keys.Deletion)
  }

  /** Internal keys of bytes are ordered as those of places are. */
  lemma DecodedKeepsOrder(a: IKey, b: IKey)
    requires Tagged(a) && Tagged(b)
    ensures Below(a, b) <==> Keys.Less(Decoded(a), Decoded(b))
    ensures a == b <==> Decoded(a) == Decoded(b)
  {
    hide Less, Place;
    LessTotal(a.user, b.user);
    PlaceKeepsOrder(a.user, b.user);
    PlaceKeepsOrder(b.user, a.user);
  }
}
