/** Streams made of fixed-width fields. */
module BitFields {
  import opened Bits

  /** `width` bits holding `value`, least significant first. */
  datatype Field = Field(value: nat, width: nat) {
    predicate Valid() {
      value < Pow2(width)
    }
  }

  predicate AllValid(fields: seq<Field>) {
    forall i :: 0 <= i < |fields| ==> fields[i].Valid()
  }

  /** The stream made of `fields` followed by `tail`. */
  function Stream(fields: seq<Field>, tail: nat): nat {
    if fields == [] then tail
    else Join(fields[0].value, fields[0].width, Stream(fields[1..], tail))
  }

  function Width(fields: seq<Field>): nat {
    if fields == [] then 0 else fields[0].width + Width(fields[1..])
  }

  lemma {:induction false} StreamConcat(a: seq<Field>, b: seq<Field>, tail: nat)
    ensures Stream(a + b, tail) == Stream(a, Stream(b, tail))
    ensures Width(a + b) == Width(a) + Width(b)
  {
    if a == [] {
      assert a + b == b;
    } else {
      assert (a + b)[1..] == a[1..] + b;
      StreamConcat(a[1..], b, tail);
    }
  }

  /** The tail starts right after the fields. */
  lemma {:induction false} StreamTail(fields: seq<Field>, tail: nat)
    ensures Stream(fields, tail) == Stream(fields, 0) + Shl(tail, Width(fields))
  {
    if fields != [] {
      var w := fields[0].width;
      StreamTail(fields[1..], tail);
      ShlSum(Stream(fields[1..], 0), Shl(tail, Width(fields[1..])), w);
      ShlAdd(tail, Width(fields[1..]), w);
    }
  }

  /** Reading a field's width yields its value and leaves the rest. */
  lemma ReadField(value: nat, width: nat, rest: nat)
    requires value < Pow2(width)
    ensures Low(Join(value, width, rest), width) == value
    ensures Shr(Join(value, width, rest), width) == rest
  {
    JoinSplit(value, width, rest, width);
    LowOfSmall(value, width);
    assert Pow2(0) == 1;
  }

  lemma OneField(f: Field, tail: nat)
    ensures Stream([f], tail) == Join(f.value, f.width, tail) && Width([f]) == f.width
  {
    assert ([f])[1..] == [];
  }

  /** A field in front of others. */
  lemma ConsField(f: Field, more: seq<Field>, tail: nat)
    ensures Stream([f] + more, tail) == Join(f.value, f.width, Stream(more, tail))
    ensures Width([f] + more) == f.width + Width(more)
  {
    assert ([f] + more)[1..] == more;
  }
}
