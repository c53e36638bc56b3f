/**
 * The two persisted entities, Category and Subcategory, with the Java-level
 * behaviour of Subcategory that the rest of the model can observe: the
 * parent-name getter, name-only `equals`, and the name-only `hashCode`.
 *
 * Generated ids, creation timestamps and `@Version` tokens carry no logic the
 * service relies on and are not represented. A Category is identified by its
 * name (unique by the storage constraint); its list of subcategories is not a
 * field here but is derived from the subcategory table (`Stores.ChildrenOf`),
 * which is what the `mappedBy` association means.
 */
module Entities {

  /** A category row: its name is required, unique and never updated. */
  datatype Category = Category(name: string)

  /** A subcategory row: a required name and a required, never re-assigned parent. */
  datatype Subcategory = Subcategory(name: string, category: Category)

  /** `getCategoryName()`: the parent category's name. */
  function CategoryName(s: Subcategory): string {
    s.category.name
  }

  /**
   * What `equals(Object)` can be handed: null, a Subcategory, or an object of
   * some other class. `SubcategoryRef(self)` also stands for `this` itself.
   */
  datatype JavaObject = Null | SubcategoryRef(sub: Subcategory) | OtherObject

  /**
   * `Subcategory.equals`: the same object, or another Subcategory whose name is
   * equal. The parent category (and the id) take no part in it.
   */
  function Equals(self: Subcategory, other: JavaObject): (b: bool)
    ensures other.SubcategoryRef? ==> (b <==> self.name == other.sub.name)
    ensures !other.SubcategoryRef? ==> !b
  {
    if other == SubcategoryRef(self) then true
    else if !other.SubcategoryRef? then false
    else self.name == other.sub.name
  }

  const TwoTo32: int := 0x1_0000_0000
  const MinInt32: int := -0x8000_0000
  const MaxInt32: int := 0x7fff_ffff

  /** Java `int` arithmetic: the value of `x` after wrap-around to 32 bits. */
  function ToInt32(x: int): (r: int)
    ensures MinInt32 <= r <= MaxInt32
    ensures (x - r) % TwoTo32 == 0
  {
    var m := x % TwoTo32;
    if m > MaxInt32 then m - TwoTo32 else m
  }

  /**
   * The UTF-16 code units of one character: itself when it lies in the Basic
   * Multilingual Plane, otherwise its high and low surrogates.
   */
  function CodeUnits(c: char): (u: seq<int>)
    ensures 1 <= |u| <= 2
    ensures forall i :: 0 <= i < |u| ==> 0 <= u[i] <= 0xFFFF
    ensures |u| == 1 <==> c as int <= 0xFFFF
    ensures |u| == 1 ==> u[0] == c as int
    ensures |u| == 2 ==>
      && 0xD800 <= u[0] <= 0xDBFF && 0xDC00 <= u[1] <= 0xDFFF
      && 0x10000 + (u[0] - 0xD800) * 0x400 + (u[1] - 0xDC00) == c as int
  {
    var v := c as int;
    if v <= 0xFFFF then [v]
    else [0xD800 + (v - 0x10000) / 0x400, 0xDC00 + (v - 0x10000) % 0x400]
  }

  /** The UTF-16 encoding of a string: the code units a Java `String` holds. */
  function Utf16(s: string): (u: seq<int>)
    ensures |s| <= |u| <= 2 * |s|
    ensures forall i :: 0 <= i < |u| ==> 0 <= u[i] <= 0xFFFF
    ensures (forall i :: 0 <= i < |s| ==> s[i] as int <= 0xFFFF) ==>
      |u| == |s| && forall i :: 0 <= i < |s| ==> u[i] == s[i] as int
  {
    if s == [] then []
    else
      var init := Utf16(s[..|s| - 1]);
      var last := CodeUnits(s[|s| - 1]);
      assert forall i :: 0 <= i < |s| - 1 ==> s[..|s| - 1][i] == s[i];
      init + last
  }

  /** `h = 31 * h + u` over the code units, in `int` arithmetic. */
  function UnitsHashCode(u: seq<int>): (h: int)
    ensures MinInt32 <= h <= MaxInt32
  {
    if u == [] then 0
    else ToInt32(31 * UnitsHashCode(u[..|u| - 1]) + u[|u| - 1])
  }

  /**
   * `String.hashCode`: the 31-based hash over the string's UTF-16 code units,
   * so a character outside the Basic Multilingual Plane contributes two units.
   */
  function StringHashCode(s: string): (h: int)
    ensures MinInt32 <= h <= MaxInt32
  {
    UnitsHashCode(Utf16(s))
  }

  /**
   * `Subcategory.hashCode`: Guava's `Objects.hashCode(name)`, which is
   * `Arrays.hashCode` of the one-element array, i.e. `31 * 1 + name.hashCode()`.
   */
  function HashCode(self: Subcategory): (h: int)
    ensures MinInt32 <= h <= MaxInt32
  {
    ToInt32(31 + StringHashCode(self.name))
  }

  /** `equals` is reflexive. */
  lemma EqualsIsReflexive(s: Subcategory)
    ensures Equals(s, SubcategoryRef(s))
  {
  }

  /** `equals` is symmetric and transitive between Subcategory objects. */
  lemma EqualsIsSymmetricAndTransitive(a: Subcategory, b: Subcategory, c: Subcategory)
    ensures Equals(a, SubcategoryRef(b)) <==> Equals(b, SubcategoryRef(a))
    ensures Equals(a, SubcategoryRef(b)) && Equals(b, SubcategoryRef(c)) ==> Equals(a, SubcategoryRef(c))
  {
  }

  /**
   * Same-named subcategories under two different categories compare equal,
   * although they are different rows.
   */
  lemma EqualsIgnoresParent(name: string, p: Category, q: Category)
    requires p != q
    ensures Subcategory(name, p) != Subcategory(name, q)
    ensures Equals(Subcategory(name, p), SubcategoryRef(Subcategory(name, q)))
  {
  }

  /** The `hashCode` contract: objects that are `equals` have equal hashes. */
  lemma EqualSubcategoriesHaveEqualHashCodes(a: Subcategory, b: Subcategory)
    requires Equals(a, SubcategoryRef(b))
    ensures HashCode(a) == HashCode(b)
  {
  }

  /** Reducing modulo 2^32 gives the same `int` for congruent values. */
  lemma ToInt32OfCongruent(x: int, y: int)
    requires (x - y) % TwoTo32 == 0
    ensures ToInt32(x) == ToInt32(y)
  {
    var k := (x - y) / TwoTo32;
    assert x == y + k * TwoTo32;
    assert x % TwoTo32 == y % TwoTo32;
  }

  /** The hash of the units as an unbounded integer: `u[0]*31^(n-1) + ... + u[n-1]`. */
  function HashPolynomial(u: seq<int>): int {
    if u == [] then 0
    else 31 * HashPolynomial(u[..|u| - 1]) + u[|u| - 1]
  }

  /** A multiple of 2^32 is congruent to 0. */
  lemma MultipleOfTwoTo32(m: int)
    ensures (m * TwoTo32) % TwoTo32 == 0
  {
  }

  /** One `31 * h + c` step keeps two values congruent modulo 2^32. */
  lemma StepKeepsCongruence(p: int, h: int, c: int)
    requires (p - h) % TwoTo32 == 0
    ensures ((31 * p + c) - (31 * h + c)) % TwoTo32 == 0
  {
    var k := (p - h) / TwoTo32;
    assert p - h == k * TwoTo32;
    assert (31 * p + c) - (31 * h + c) == (31 * k) * TwoTo32;
    MultipleOfTwoTo32(31 * k);
  }

  /**
   * Wrapping at every step of the hash loop is the same as evaluating the
   * polynomial exactly and wrapping once at the end.
   */
  lemma {:induction false} UnitsHashCodeIsPolynomialModulo(u: seq<int>)
    ensures UnitsHashCode(u) == ToInt32(HashPolynomial(u))
  {
    if u != [] {
      var init := u[..|u| - 1];
      var c := u[|u| - 1];
      UnitsHashCodeIsPolynomialModulo(init);
      var h := UnitsHashCode(init);
      var p := HashPolynomial(init);
      assert (p - h) % TwoTo32 == 0;
      StepKeepsCongruence(p, h, c);
      ToInt32OfCongruent(31 * p + c, 31 * h + c);
    }
  }

  /** `String.hashCode` is the hash polynomial of the UTF-16 units, wrapped to 32 bits. */
  lemma StringHashCodeIsPolynomialModulo(s: string)
    ensures StringHashCode(s) == ToInt32(HashPolynomial(Utf16(s)))
  {
    UnitsHashCodeIsPolynomialModulo(Utf16(s));
  }

  /**
   * A character outside the Basic Multilingual Plane hashes as its surrogate
   * pair: U+1F600 is the units 0xD83D, 0xDE00, and `31 * 0xD83D + 0xDE00`.
   */
  lemma SupplementaryCharacterHash()
    ensures Utf16("\U{1F600}") == [0xD83D, 0xDE00]
    ensures StringHashCode("\U{1F600}") == 1772899
  {
    var s := "\U{1F600}";
    assert s[..0] == [];
    assert Utf16(s) == [] + CodeUnits(s[0]);
    var u := [0xD83D, 0xDE00];
    assert u[..1] == [0xD83D] && [0xD83D][..0] == [];
  }
}
