/**
 * IntByteArray: a byte-array key (a ByteArray) tagged with the final
 * partition it is shuffled to, with Java equality and hashing.
 *
 * The base class ByteArray is not part of this model. What IntByteArray uses
 * of it (`super.equals` on the content and `super.hashCode`) is passed in as a
 * ByteArrayBase value, and the laws the base is expected to obey are stated as
 * predicates that the lemmas below take as preconditions.
 */
module IntByteArrays {
  import opened JavaInt

  /** A Java `byte[]`; the sign of a byte plays no part in this model. */
  type Bytes = seq<bv8>

  /**
   * What IntByteArray inherits from ByteArray: content equality, as
   * `super.equals` answers it for two objects of the same class, and the
   * content hash `super.hashCode`.
   */
  datatype ByteArrayBase = ByteArrayBase(contentEquals: (Bytes, Bytes) -> bool, contentHash: Bytes -> int32)

  /** The base's content equality is an equivalence relation. */
  ghost predicate ContentEquivalence(base: ByteArrayBase)
  {
    && (forall x :: base.contentEquals(x, x))
    && (forall x, y :: base.contentEquals(x, y) ==> base.contentEquals(y, x))
    && (forall x, y, z :: base.contentEquals(x, y) && base.contentEquals(y, z) ==> base.contentEquals(x, z))
  }

  /** The base's hash agrees with its equality: equal content, equal hash. */
  ghost predicate ContentHashAgrees(base: ByteArrayBase)
  {
    forall x, y :: base.contentEquals(x, y) ==> base.contentHash(x) == base.contentHash(y)
  }

  /** An IntByteArray: its final `partition` field and the bytes held by the base. */
  datatype IntByteArray = IntByteArray(partition: int32, content: Bytes)

  /** The run-time class of a non-null object, as `getClass()` reports it. */
  datatype JavaClass = ByteArrayClass | IntByteArrayClass | OtherClass

  /**
   * The argument of `equals(Object)`: null, a plain ByteArray, an
   * IntByteArray, or an object of any other class.
   */
  datatype Object = Null | PlainByteArray(bytes: Bytes) | Partitioned(value: IntByteArray) | Other

  function GetClass(o: Object): (r: JavaClass)
    requires !o.Null?
    ensures r == IntByteArrayClass <==> o.Partitioned?
    ensures r == ByteArrayClass <==> o.PlainByteArray?
  {
    match o
    case PlainByteArray(_) => ByteArrayClass
    case Partitioned(_) => IntByteArrayClass
    case Other => OtherClass
  }

  /** `new IntByteArray(partition, bytes)`. */
  function New(partition: int32, bytes: Bytes): (r: IntByteArray)
    ensures r.partition == partition && r.content == bytes
  {
    IntByteArray(partition, bytes)
  }

  /** `self.equals(o)`: the checks in the order the source makes them. */
  function Equals(base: ByteArrayBase, self: IntByteArray, o: Object): (r: bool)
    ensures r <==> o.Partitioned? && base.contentEquals(self.content, o.value.content)
                   && self.partition == o.value.partition
  {
    if o.Null? || GetClass(o) != IntByteArrayClass then false
    else if !base.contentEquals(self.content, o.value.content) then false
    else if self.partition != o.value.partition then false
    else true
  }

  /** `self.hashCode()`: `31 * super.hashCode() + partition` in `int` arithmetic. */
  function HashCode(base: ByteArrayBase, self: IntByteArray): (r: int32)
    ensures (r as int - (31 * base.contentHash(self.content) as int + self.partition as int)) % Modulus == 0
    ensures r == Wrap(31 * base.contentHash(self.content) as int + self.partition as int)
  {
    var h := base.contentHash(self.content);
    var m := Mul(31, h);
    WrapEqualIff(Add(m, self.partition) as int, 31 * h as int + self.partition as int);
    Add(m, self.partition)
  }

  // ---------------------------------------------------------------------
  // equals

  lemma NeverEqualsNull(base: ByteArrayBase, self: IntByteArray)
    ensures !Equals(base, self, Null)
  {
  }

  /** An object of another class, a plain ByteArray included, is never equal. */
  lemma NeverEqualsOtherClass(base: ByteArrayBase, self: IntByteArray, o: Object)
    requires !o.Null? && GetClass(o) != IntByteArrayClass
    ensures !Equals(base, self, o)
  {
  }

  /** In particular a plain ByteArray with the very same bytes is not equal. */
  lemma NeverEqualsPlainByteArray(base: ByteArrayBase, self: IntByteArray)
    ensures !Equals(base, self, PlainByteArray(self.content))
  {
  }

  /** Between two IntByteArrays, equal exactly when the content and the partition are. */
  lemma EqualsIff(base: ByteArrayBase, a: IntByteArray, b: IntByteArray)
    ensures Equals(base, a, Partitioned(b)) <==> base.contentEquals(a.content, b.content) && a.partition == b.partition
  {
  }

  lemma EqualsReflexive(base: ByteArrayBase, a: IntByteArray)
    requires ContentEquivalence(base)
    ensures Equals(base, a, Partitioned(a))
  {
  }

  lemma EqualsSymmetric(base: ByteArrayBase, a: IntByteArray, b: IntByteArray)
    requires ContentEquivalence(base)
    ensures Equals(base, a, Partitioned(b)) == Equals(base, b, Partitioned(a))
  {
  }

  lemma EqualsTransitive(base: ByteArrayBase, a: IntByteArray, b: IntByteArray, c: IntByteArray)
    requires ContentEquivalence(base)
    requires Equals(base, a, Partitioned(b)) && Equals(base, b, Partitioned(c))
    ensures Equals(base, a, Partitioned(c))
  {
  }

  // ---------------------------------------------------------------------
  // hashCode

  /** Equal objects have equal hash codes. */
  lemma HashCodeAgreesWithEquals(base: ByteArrayBase, a: IntByteArray, o: Object)
    requires ContentHashAgrees(base)
    requires Equals(base, a, o)
    ensures HashCode(base, a) == HashCode(base, o.value)
  {
  }

  /**
   * With the content hash held fixed, the hash code tells partitions apart:
   * two hash codes are equal exactly when the partitions are.
   */
  lemma HashCodeSeparatesPartitions(base: ByteArrayBase, a: IntByteArray, b: IntByteArray)
    requires base.contentHash(a.content) == base.contentHash(b.content)
    ensures HashCode(base, a) == HashCode(base, b) <==> a.partition == b.partition
  {
    AddInjective(Mul(31, base.contentHash(a.content)), a.partition, b.partition);
  }

  /**
   * The partner of the lemma above: for any content, every `int` is the hash
   * code of that content under some partition, so partition to hash code is a
   * bijection of `int`.
   */
  lemma HashCodeCoversEveryInt(base: ByteArrayBase, content: Bytes, t: int32)
    ensures exists p: int32 :: HashCode(base, New(p, content)) == t
  {
    var m := Mul(31, base.contentHash(content));
    var p := Wrap(t as int - m as int);
    WrapEqualIff(m as int + p as int, t as int);
    assert HashCode(base, New(p, content)) == t;
  }

  // ---------------------------------------------------------------------
  // A base that meets the laws, and sample values

  /** Comparing the bytes element by element, with any hash of the bytes, meets both laws. */
  lemma ElementwiseBaseIsLawful(hash: Bytes -> int32)
    ensures ContentEquivalence(ByteArrayBase((x: Bytes, y: Bytes) => x == y, hash))
    ensures ContentHashAgrees(ByteArrayBase((x: Bytes, y: Bytes) => x == y, hash))
  {
  }

  /** Under element-wise content equality, equal exactly when partitions and bytes are. */
  lemma ElementwiseEqualsIff(hash: Bytes -> int32, p1: int32, b1: Bytes, p2: int32, b2: Bytes)
    ensures Equals(ByteArrayBase((x: Bytes, y: Bytes) => x == y, hash), New(p1, b1), Partitioned(New(p2, b2)))
            <==> p1 == p2 && b1 == b2
  {
  }

  lemma Examples(hash: Bytes -> int32)
    ensures var base := ByteArrayBase((x: Bytes, y: Bytes) => x == y, hash);
            && Equals(base, New(3, [0x01, 0x02]), Partitioned(New(3, [0x01, 0x02])))
            && !Equals(base, New(3, [0x01, 0x02]), Partitioned(New(4, [0x01, 0x02])))
            && !Equals(base, New(3, [0x01, 0x02]), Partitioned(New(3, [0x01, 0x03])))
            && !Equals(base, New(3, [0x01, 0x02]), PlainByteArray([0x01, 0x02]))
  {
  }
}
