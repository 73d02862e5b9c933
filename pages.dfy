/**
 * A WoaS page as the serializer receives it, and the attribute bits that
 * decide how its content is written and read back.
 */
module Pages {
  /** `_WOAS_ENCRYPTED`, `_WOAS_EMB_FILE`, `_WOAS_EMB_IMAGE`. */
  const Encrypted: nat := 2
  const EmbFile: nat := 4
  const EmbImage: nat := 8

  /**
   * `attrs & bit` is non-zero, for a power of two `bit`. Floor division gives
   * the two's-complement bit for negative attribute values as well.
   */
  predicate HasBit(attrs: int, bit: nat)
    requires bit > 0
  {
    (attrs / bit) % 2 == 1
  }

  /** `WoaS_Page`: its fields are only read by the serializer. */
  datatype Page = Page(title: string, attributes: int, lastModified: int, content: string)
  {
    predicate IsEncrypted() {
      HasBit(attributes, Encrypted)
    }

    predicate IsImage() {
      HasBit(attributes, EmbImage)
    }

    predicate IsEmbedded() {
      HasBit(attributes, EmbFile)
    }
  }

  /** The attribute value with the three flags given and `rest` above them. */
  function Compose(encrypted: bool, file: bool, image: bool, low: bool, rest: int): (a: int) {
    rest * 16 + (if image then 8 else 0) + (if file then 4 else 0)
      + (if encrypted then 2 else 0) + (if low then 1 else 0)
  }

  /** Each bit test reads back exactly the flag composed into the value. */
  lemma BitTestsOfCompose(encrypted: bool, file: bool, image: bool, low: bool, rest: int)
    ensures var a := Compose(encrypted, file, image, low, rest);
      && (HasBit(a, Encrypted) <==> encrypted)
      && (HasBit(a, EmbFile) <==> file)
      && (HasBit(a, EmbImage) <==> image)
  {
    var a := Compose(encrypted, file, image, low, rest);
    var e, f, i, l := (if encrypted then 1 else 0), (if file then 1 else 0),
      (if image then 1 else 0), (if low then 1 else 0);
    DivModOfSum(2, rest * 8 + i * 4 + f * 2 + e, l);
    DivModOfSum(2, rest * 4 + i * 2 + f, e);
    DivModOfSum(4, rest * 4 + i * 2 + f, e * 2 + l);
    DivModOfSum(2, rest * 2 + i, f);
    DivModOfSum(8, rest * 2 + i, f * 4 + e * 2 + l);
    DivModOfSum(2, rest, i);
  }

  /** Floor division of `d * q + r` by `d`, for a remainder below `d`. */
  lemma DivModOfSum(d: nat, q: int, r: nat)
    requires d in {2, 4, 8} && r < d
    ensures (d * q + r) / d == q && (d * q + r) % d == r
  {
    if d == 2 {
      assert (2 * q + r) / 2 == q;
    } else if d == 4 {
      assert (4 * q + r) / 4 == q;
    } else {
      assert (8 * q + r) / 8 == q;
    }
  }

  /** Every attribute value is made of its three flags and the other bits. */
  lemma ComposeOfBitTests(a: int)
    ensures a == Compose(HasBit(a, Encrypted), HasBit(a, EmbFile), HasBit(a, EmbImage),
      a % 2 == 1, a / 16)
  {
    var e, f, i := (a / 2) % 2, (a / 4) % 2, (a / 8) % 2;
    assert a / 4 == (a / 2) / 2;
    assert a / 8 == (a / 4) / 2;
    assert a / 16 == (a / 8) / 2;
    assert a == 2 * (a / 2) + a % 2;
    assert a / 2 == 2 * (a / 4) + e;
    assert a / 4 == 2 * (a / 8) + f;
    assert a / 8 == 2 * (a / 16) + i;
  }
}
