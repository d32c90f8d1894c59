/** A piece of text at a position of a longer one. */
module Slices {

  predicate At<T(==)>(c: seq<T>, o: nat, t: seq<T>)
  {
    o + |t| <= |c| && c[o..o + |t|] == t
  }

  lemma AtAppend<T>(c: seq<T>, o: nat, a: seq<T>, b: seq<T>)
    requires At(c, o, a + b)
    ensures At(c, o, a) && At(c, o + |a|, b)
  {
    assert c[o..o + |a + b|][..|a|] == a && c[o..o + |a + b|][|a|..] == b;
  }

  lemma AtByte<T>(c: seq<T>, o: nat, a: seq<T>, i: nat)
    requires At(c, o, a) && i < |a|
    ensures c[o + i] == a[i]
  {
    assert c[o..o + |a|][i] == a[i];
  }

  lemma AtInside<T>(c: seq<T>, o: nat, a: seq<T>)
    requires At(c, o, a)
    ensures o + |a| <= |c|
  {
  }

  lemma AtByteIn<T>(c: seq<T>, o: nat, a: seq<T>)
    requires At(c, o, a) && a != []
    ensures o < |c| && c[o] == a[0]
  {
    AtByte(c, o, a, 0);
  }
}
