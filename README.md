# IntByteArray — a verified model

Apache Crunch's Spark back end shuffles records as `IntByteArray` values. An
`IntByteArray` is a `ByteArray` key (a byte array with content equality and
a content hash) tagged with the number of the partition it goes to. Its
`partition` field is `final`. The bytes are held by the base class, which
receives the caller's array as it is.
The class defines two operations:

- `equals(Object)` returns false for `null` and for any object whose run-time
  class differs. Otherwise it asks the base class whether the contents are
  equal, then compares the partitions.
- `hashCode()` returns `31 * super.hashCode() + partition`, evaluated in
  Java's 32-bit `int` arithmetic.

The model has two modules:

- `JavaInt` (`java_int.dfy`) holds the `int32` type. It defines Java's
  wrapping `+` and `*` through `Wrap`, the reduction modulo 2^32.
- `IntByteArrays` (`int_byte_array.dfy`) holds the value type, the argument
  type of `equals`, the two operations and their laws.

The base class `ByteArray` is not part of this model. `IntByteArray` uses two
things from it: content equality and the content hash. These are passed in as
a `ByteArrayBase` value. The laws the base is expected to obey are two
predicates:

- `ContentEquivalence`: content equality is an equivalence relation.
- `ContentHashAgrees`: equal content gives an equal base hash.

The lemmas that rely on these laws take them as preconditions. `equals` and
`hashCode` themselves assume nothing. `ElementwiseBaseIsLawful` shows that
the laws can be met.

`getClass()` is modelled as a closed tag, `JavaClass`. The argument of
`equals` is an `Object`: `Null`, a `PlainByteArray`, a `Partitioned`
(IntByteArray) or an object of some `Other` class.

Repeated calls on one instance give the same result by construction. Both
operations are functions of a datatype value, which is how the model captures
the `final` field. The model also treats the bytes as unchanging; see
"## Left out".

## Model

| member | source | states |
|---|---|---|
| JavaInt.Wrap | crunch-spark/src/main/java/org/apache/crunch/impl/spark/IntByteArray.java:41 | the `int` result is congruent to the exact integer modulo 2^32, and it is that integer when the integer is in `int` range |
| JavaInt.WrapEqualIff | crunch-spark/src/main/java/org/apache/crunch/impl/spark/IntByteArray.java:41 | two integers wrap to the same `int` if and only if they are congruent modulo 2^32 |
| JavaInt.Add | crunch-spark/src/main/java/org/apache/crunch/impl/spark/IntByteArray.java:41 | Java `+` on `int`: the sum modulo 2^32, exact when it does not overflow |
| JavaInt.Mul | crunch-spark/src/main/java/org/apache/crunch/impl/spark/IntByteArray.java:41 | Java `*` on `int`: the product modulo 2^32, exact when it does not overflow |
| JavaInt.AddInjective | crunch-spark/src/main/java/org/apache/crunch/impl/spark/IntByteArray.java:41 | with one addend fixed, wrapping `+` gives equal sums if and only if the other addends are equal |
| IntByteArrays.GetClass | crunch-spark/src/main/java/org/apache/crunch/impl/spark/IntByteArray.java:32 | the run-time class of a non-null argument: IntByteArray exactly for an IntByteArray, ByteArray exactly for a plain ByteArray |
| IntByteArrays.New | crunch-spark/src/main/java/org/apache/crunch/impl/spark/IntByteArray.java:25-28 | the new value holds exactly the given partition and the given bytes |
| IntByteArrays.Equals | crunch-spark/src/main/java/org/apache/crunch/impl/spark/IntByteArray.java:31-37 | `equals` is true if and only if the argument is an IntByteArray, the base finds the contents equal, and the partitions are equal |
| IntByteArrays.HashCode | crunch-spark/src/main/java/org/apache/crunch/impl/spark/IntByteArray.java:40-42 | the hash computed step by step in `int` arithmetic (wrapping after `*` and after `+`) is congruent to `31 * baseHash + partition` modulo 2^32, and equals that exact value wrapped once into `int` |
| IntByteArrays.NeverEqualsNull | crunch-spark/src/main/java/org/apache/crunch/impl/spark/IntByteArray.java:32 | `equals(null)` is false |
| IntByteArrays.NeverEqualsOtherClass | crunch-spark/src/main/java/org/apache/crunch/impl/spark/IntByteArray.java:32 | any non-null object of a class other than IntByteArray is not equal |
| IntByteArrays.NeverEqualsPlainByteArray | crunch-spark/src/main/java/org/apache/crunch/impl/spark/IntByteArray.java:32 | a plain ByteArray is not equal to an IntByteArray, even with the same bytes |
| IntByteArrays.EqualsIff | crunch-spark/src/main/java/org/apache/crunch/impl/spark/IntByteArray.java:33-36 | two IntByteArrays are equal if and only if the base finds their contents equal and their partitions are equal |
| IntByteArrays.EqualsReflexive | crunch-spark/src/main/java/org/apache/crunch/impl/spark/IntByteArray.java:31-37 | every IntByteArray equals itself, given that content equality is an equivalence |
| IntByteArrays.EqualsSymmetric | crunch-spark/src/main/java/org/apache/crunch/impl/spark/IntByteArray.java:31-37 | `a.equals(b) == b.equals(a)` for IntByteArrays, given that content equality is an equivalence |
| IntByteArrays.EqualsTransitive | crunch-spark/src/main/java/org/apache/crunch/impl/spark/IntByteArray.java:31-37 | `a.equals(b)` and `b.equals(c)` imply `a.equals(c)` for IntByteArrays, given that content equality is an equivalence |
| IntByteArrays.HashCodeAgreesWithEquals | crunch-spark/src/main/java/org/apache/crunch/impl/spark/IntByteArray.java:31-42 | equal objects have equal hash codes, given that equal content has an equal base hash |
| IntByteArrays.HashCodeSeparatesPartitions | crunch-spark/src/main/java/org/apache/crunch/impl/spark/IntByteArray.java:41 | with the base hash fixed, two hash codes are equal if and only if the partitions are, because `x ↦ 31*h + x` is injective modulo 2^32 |
| IntByteArrays.HashCodeCoversEveryInt | crunch-spark/src/main/java/org/apache/crunch/impl/spark/IntByteArray.java:41 | for any content, every `int` is the hash code of that content under some partition; with the row above, partition to hash code is a bijection of `int` |
| IntByteArrays.ElementwiseBaseIsLawful | crunch-spark/src/main/java/org/apache/crunch/impl/spark/IntByteArray.java:33 | element-wise byte comparison, with any hash of the bytes, meets both base laws |
| IntByteArrays.ElementwiseEqualsIff | crunch-spark/src/main/java/org/apache/crunch/impl/spark/IntByteArray.java:25-36 | under element-wise content equality, `new IntByteArray(p1, b1).equals(new IntByteArray(p2, b2))` if and only if `p1 == p2` and `b1 == b2` |
| IntByteArrays.Examples | crunch-spark/src/main/java/org/apache/crunch/impl/spark/IntByteArray.java:25-37 | concrete cases: same partition and bytes are equal; a different partition, a different byte, or a plain ByteArray with the same bytes is not |

## Left out

- The base class `ByteArray` is not part of this model. Its content equality and hash are parameters, constrained only by the two laws above. The model does not guess whether they use `Arrays.equals` or `Arrays.hashCode`.
- IntByteArrays.New: whether the base copies the array or keeps an alias is not modelled. Content is an immutable sequence, so aliasing and later mutation through an alias cannot be expressed.
- IntByteArrays.New: the source accepts a `null` byte array without a check and passes it to the base class. A sequence cannot be null, so that input cannot be represented. What the base does with a null array is not known.
- Java serialization (`implements Serializable`) is not modelled. It is runtime machinery with no logic in this class.
- `getClass()` reflection is a closed tag of three classes, not open class comparison. Subclasses of IntByteArray fall under `Other`, which is the same outcome.
- Determinism of repeated `equals`/`hashCode` calls has no lemma of its own. Dafny functions of immutable values are deterministic by definition.
- A bit-level two's-complement definition of `int` arithmetic is not given. `Wrap`, the reduction modulo 2^32 into the `int32` range, is used instead.
- Spark shuffle, partitioning and pipeline use of the type belong to the surrounding engine and are not part of this model.
