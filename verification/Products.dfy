/** Products of sequences of numbers. */
module Products {
  import opened Arith

  function Product(s: seq<int>): int {
    if s == [] then 1 else s[0] * Product(s[1..])
  }

  function Without<T>(s: seq<T>, i: nat): seq<T>
    requires i < |s|
  {
    s[..i] + s[i + 1..]
  }

  lemma {:induction false} ProductAppend(s: seq<int>, t: seq<int>)
    ensures Product(s + t) == Product(s) * Product(t)
    decreases |s|
  {
    if s == [] {
      assert s + t == t;
    } else {
      assert (s + t)[1..] == s[1..] + t;
      ProductAppend(s[1..], t);
      MulAssoc(s[0], Product(s[1..]), Product(t));
    }
  }

  lemma ProductSingle(x: int)
    ensures Product([x]) == x
  {
    assert [x][1..] == [];
  }

  lemma ProductWithout(s: seq<int>, i: nat)
    requires i < |s|
    ensures Product(s) == s[i] * Product(Without(s, i))
  {
    hide Product;
    assert s == s[..i] + ([s[i]] + s[i + 1..]);
    ProductAppend(s[..i], [s[i]] + s[i + 1..]);
    ProductAppend([s[i]], s[i + 1..]);
    ProductAppend(s[..i], s[i + 1..]);
    ProductSingle(s[i]);
    MulRotate(Product(s[..i]), s[i], Product(s[i + 1..]));
  }

  lemma {:induction false} ProductPositive(s: seq<int>)
    requires forall i :: 0 <= i < |s| ==> 0 < s[i]
    ensures 0 < Product(s)
    decreases |s|
  {
    if s != [] {
      ProductPositive(s[1..]);
      MulPositive(s[0], Product(s[1..]));
    }
  }
}
