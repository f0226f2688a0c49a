/** Cat records, their text form, and sorting pointers to them
    (codes/indicatorAndCont.cpp).

    A `const Cat*` into the vector `cats` is modelled as an index into it:
    the pointers all point into that one vector and are never null. The
    stream operators `<<` become functions that build the text they would
    write. */
module Cats {
  import opened Wrappers

  datatype CatBreed = Bengal | Balinese | Persian | Siamese | Siberian | Sphynx

  datatype Gender = Male | Female

  datatype Cat = Cat(name: string, gender: Gender, breed: CatBreed, age: int)

  // ---------------------------------------------------------------------------
  // Text forms
  // ---------------------------------------------------------------------------

  /** `CatBreedToString`. The `default:` branch that throws `invalid_argument`
      cannot be reached with a value of the enumeration. */
  function CatBreedToString(breed: CatBreed): (s: string)
    ensures |s| > 0
  {
    match breed
    case Bengal => "Bengal"
    case Balinese => "Balinese"
    case Persian => "Persian"
    case Siamese => "Siamese"
    case Siberian => "Siberian"
    case Sphynx => "Sphynx"
  }

  /** Reads a breed name back; `None` for any other text. */
  function BreedFromString(s: string): Option<CatBreed> {
    if s == "Bengal" then Some(Bengal)
    else if s == "Balinese" then Some(Balinese)
    else if s == "Persian" then Some(Persian)
    else if s == "Siamese" then Some(Siamese)
    else if s == "Siberian" then Some(Siberian)
    else if s == "Sphynx" then Some(Sphynx)
    else None
  }

  /** Every breed has its own name: reading the name back gives the breed,
      and only breed names are read back. */
  lemma BreedNamesRoundTrip(breed: CatBreed, s: string)
    ensures BreedFromString(CatBreedToString(breed)) == Some(breed)
    ensures BreedFromString(s) == Some(breed) ==> CatBreedToString(breed) == s
  {
  }

  /** `operator<<(ostream&, Gender)`. */
  function GenderToString(gender: Gender): (s: string)
    ensures |s| > 0
    ensures NoComma(s)
  {
    if gender == Male then "male" else "female"
  }

  /** The two genders print differently. */
  lemma GenderNamesDistinct(a: Gender, b: Gender)
    ensures GenderToString(a) == GenderToString(b) <==> a == b
  {
  }

  predicate IsDigit(c: char) {
    '0' <= c <= '9'
  }

  /** The decimal digits of `n`, most significant first, without leading
      zeros. */
  function NatToString(n: nat): (s: string)
    ensures |s| > 0
    ensures forall i :: 0 <= i < |s| ==> IsDigit(s[i])
  {
    if n < 10 then [('0' as int + n) as char]
    else NatToString(n / 10) + [('0' as int + n % 10) as char]
  }

  /** `out << n` for an `int`: a minus sign before the digits of a negative
      number. */
  function IntToString(n: int): (s: string)
    ensures |s| > 0
  {
    if n < 0 then "-" + NatToString(-n) else NatToString(n)
  }

  function ParseNat(s: string): int {
    if s == [] then 0 else ParseNat(s[..|s| - 1]) * 10 + (s[|s| - 1] as int - '0' as int)
  }

  /** Reads back a decimal number with an optional minus sign. */
  function ParseInt(s: string): int {
    if s != [] && s[0] == '-' then -ParseNat(s[1..]) else ParseNat(s)
  }

  lemma {:induction false} ParseNatRoundTrip(n: nat)
    ensures ParseNat(NatToString(n)) == n
  {
    if n >= 10 {
      var s := NatToString(n);
      ParseNatRoundTrip(n / 10);
      assert s[..|s| - 1] == NatToString(n / 10);
    }
  }

  /** Printing an `int` loses nothing: the text reads back as the number. */
  lemma IntToStringRoundTrip(n: int)
    ensures ParseInt(IntToString(n)) == n
  {
    if n < 0 {
      ParseNatRoundTrip(-n);
      assert IntToString(n)[1..] == NatToString(-n);
    } else {
      ParseNatRoundTrip(n);
    }
  }

  /** `operator<<(ostream&, const Cat&)`: `{name, gender, breed: B, age:N}`. */
  function CatToString(cat: Cat): (s: string)
    ensures |s| > 0 && s[0] == '{' && s[|s| - 1] == '}'
  {
    "{" + (cat.name + (", " + (GenderToString(cat.gender) + (", breed: " + (CatBreedToString(cat.breed)
      + (", age:" + (IntToString(cat.age) + "}")))))))
  }

  predicate NoComma(s: string) {
    forall i :: 0 <= i < |s| ==> s[i] != ','
  }

  /** The position of the first comma, or the length. */
  function FirstComma(s: string): (k: nat)
    ensures k <= |s|
  {
    if s == [] || s[0] == ',' then 0 else 1 + FirstComma(s[1..])
  }

  lemma {:induction false} FirstCommaAfter(a: string, x: string)
    requires NoComma(a) && x != [] && x[0] == ','
    ensures FirstComma(a + x) == |a|
    decreases |a|
  {
    if a != [] {
      assert (a + x)[1..] == a[1..] + x;
      FirstCommaAfter(a[1..], x);
    }
  }

  /** A comma-free field followed by a comma is recovered from the text. */
  lemma SplitAtComma(a: string, x: string, b: string, y: string)
    requires NoComma(a) && x != [] && x[0] == ','
    requires NoComma(b) && y != [] && y[0] == ','
    requires a + x == b + y
    ensures a == b && x == y
  {
    FirstCommaAfter(a, x);
    FirstCommaAfter(b, y);
    assert a == (a + x)[..|a|] && b == (b + y)[..|b|];
    assert x == (a + x)[|a|..] && y == (b + y)[|b|..];
  }

  lemma FieldNamesHaveNoComma(cat: Cat)
    ensures NoComma(GenderToString(cat.gender)) && NoComma(CatBreedToString(cat.breed))
  {
  }

  /** The text after the name, after the gender and after the breed. */
  function GenderTail(cat: Cat): string {
    ", " + (GenderToString(cat.gender) + BreedTail(cat))
  }

  function BreedTail(cat: Cat): string {
    ", breed: " + (CatBreedToString(cat.breed) + AgeTail(cat.age))
  }

  function AgeTail(age: int): string {
    ", age:" + (IntToString(age) + "}")
  }

  lemma AgeTailInjective(a: int, b: int)
    requires AgeTail(a) == AgeTail(b)
    ensures a == b
  {
    var (na, nb) := (IntToString(a) + "}", IntToString(b) + "}");
    assert na == AgeTail(a)[6..] && nb == AgeTail(b)[6..];
    assert IntToString(a) == na[..|na| - 1] && IntToString(b) == nb[..|nb| - 1];
    IntToStringRoundTrip(a);
    IntToStringRoundTrip(b);
  }

  lemma BreedTailInjective(a: Cat, b: Cat)
    requires BreedTail(a) == BreedTail(b)
    ensures a.breed == b.breed && a.age == b.age
  {
    FieldNamesHaveNoComma(a);
    FieldNamesHaveNoComma(b);
    assert BreedTail(a)[9..] == CatBreedToString(a.breed) + AgeTail(a.age);
    assert BreedTail(b)[9..] == CatBreedToString(b.breed) + AgeTail(b.age);
    SplitAtComma(CatBreedToString(a.breed), AgeTail(a.age), CatBreedToString(b.breed), AgeTail(b.age));
    BreedNamesRoundTrip(a.breed, CatBreedToString(b.breed));
    AgeTailInjective(a.age, b.age);
  }

  lemma GenderTailInjective(a: Cat, b: Cat)
    requires GenderTail(a) == GenderTail(b)
    ensures a.gender == b.gender && a.breed == b.breed && a.age == b.age
  {
    FieldNamesHaveNoComma(a);
    FieldNamesHaveNoComma(b);
    assert GenderTail(a)[2..] == GenderToString(a.gender) + BreedTail(a);
    assert GenderTail(b)[2..] == GenderToString(b.gender) + BreedTail(b);
    SplitAtComma(GenderToString(a.gender), BreedTail(a), GenderToString(b.gender), BreedTail(b));
    BreedTailInjective(a, b);
  }

  /** The text of a cat whose name has no comma determines the cat: name,
      gender, breed and age can all be read back from it. */
  lemma CatToStringInjective(a: Cat, b: Cat)
    requires NoComma(a.name) && NoComma(b.name)
    requires CatToString(a) == CatToString(b)
    ensures a == b
  {
    assert CatToString(a)[1..] == a.name + GenderTail(a);
    assert CatToString(b)[1..] == b.name + GenderTail(b);
    SplitAtComma(a.name, GenderTail(a), b.name, GenderTail(b));
    GenderTailInjective(a, b);
  }

  // ---------------------------------------------------------------------------
  // Sorting pointers with a comparator
  // ---------------------------------------------------------------------------

  /** What `std::sort` demands of its comparator, as far as this sort uses
      it: no cat is less than itself, and "less" is transitive. */
  ghost predicate StrictOrder(comp: (Cat, Cat) -> bool) {
    && (forall x :: !comp(x, x))
    && (forall x, y, z :: comp(x, y) && comp(y, z) ==> comp(x, z))
  }

  predicate IndicesInto(cats: seq<Cat>, ptrs: seq<nat>) {
    forall k :: 0 <= k < |ptrs| ==> ptrs[k] < |cats|
  }

  /** No later pointer points to a cat that compares less than the cat of an
      earlier one. */
  predicate OrderedBy(cats: seq<Cat>, comp: (Cat, Cat) -> bool, ptrs: seq<nat>)
    requires IndicesInto(cats, ptrs)
  {
    forall i, j :: 0 <= i < j < |ptrs| ==> !comp(cats[ptrs[j]], cats[ptrs[i]])
  }

  /** The position before the first pointer whose cat is greater than the
      cat at `e`. */
  function InsertionPoint(cats: seq<Cat>, comp: (Cat, Cat) -> bool, sorted: seq<nat>, e: nat): (p: nat)
    requires IndicesInto(cats, sorted) && e < |cats|
    ensures p <= |sorted|
    ensures forall k :: 0 <= k < p ==> !comp(cats[e], cats[sorted[k]])
    ensures p < |sorted| ==> comp(cats[e], cats[sorted[p]])
  {
    if sorted == [] || comp(cats[e], cats[sorted[0]]) then 0
    else 1 + InsertionPoint(cats, comp, sorted[1..], e)
  }

  /** The elements of `s[..p] + [e] + s[p..]` by position. */
  lemma InsertedAt(s: seq<nat>, p: nat, e: nat)
    requires p <= |s|
    ensures |s[..p] + [e] + s[p..]| == |s| + 1
    ensures forall k :: 0 <= k < p ==> (s[..p] + [e] + s[p..])[k] == s[k]
    ensures (s[..p] + [e] + s[p..])[p] == e
    ensures forall k :: p < k <= |s| ==> (s[..p] + [e] + s[p..])[k] == s[k - 1]
    ensures multiset(s[..p] + [e] + s[p..]) == multiset(s) + multiset{e}
  {
    assert s == s[..p] + s[p..];
  }

  /** Inserting one pointer into an ordered sequence keeps it ordered. */
  function InsertPointer(cats: seq<Cat>, comp: (Cat, Cat) -> bool, sorted: seq<nat>, e: nat): (r: seq<nat>)
    requires StrictOrder(comp)
    requires IndicesInto(cats, sorted) && OrderedBy(cats, comp, sorted) && e < |cats|
    ensures IndicesInto(cats, r) && OrderedBy(cats, comp, r)
    ensures multiset(r) == multiset(sorted) + multiset{e}
  {
    var p := InsertionPoint(cats, comp, sorted, e);
    InsertedAt(sorted, p, e);
    var r := sorted[..p] + [e] + sorted[p..];
    InsertedOrdered(cats, comp, sorted, e, p, r);
    r
  }

  /** No pointer from the insertion point on is less than the new one. */
  lemma AfterInsertionPoint(cats: seq<Cat>, comp: (Cat, Cat) -> bool, sorted: seq<nat>, e: nat, p: nat)
    requires StrictOrder(comp)
    requires IndicesInto(cats, sorted) && OrderedBy(cats, comp, sorted) && e < |cats|
    requires p == InsertionPoint(cats, comp, sorted, e)
    ensures forall j :: p <= j < |sorted| ==> !comp(cats[sorted[j]], cats[e])
  {
    forall j | p <= j < |sorted|
      ensures !comp(cats[sorted[j]], cats[e])
    {
      if j > p {
        assert !comp(cats[sorted[j]], cats[sorted[p]]);
      }
    }
  }

  lemma InsertedOrdered(cats: seq<Cat>, comp: (Cat, Cat) -> bool, sorted: seq<nat>, e: nat, p: nat, r: seq<nat>)
    requires StrictOrder(comp)
    requires IndicesInto(cats, sorted) && OrderedBy(cats, comp, sorted) && e < |cats|
    requires p == InsertionPoint(cats, comp, sorted, e)
    requires r == sorted[..p] + [e] + sorted[p..]
    ensures IndicesInto(cats, r)
    ensures OrderedBy(cats, comp, r)
  {
    InsertedAt(sorted, p, e);
    AfterInsertionPoint(cats, comp, sorted, e, p);
    forall i, j | 0 <= i < j < |r|
      ensures !comp(cats[r[j]], cats[r[i]])
    {
      if j < p {
        assert r[i] == sorted[i] && r[j] == sorted[j];
      } else if j == p {
        assert r[i] == sorted[i];
      } else if i == p {
        assert r[j] == sorted[j - 1];
      } else if i < p {
        assert r[i] == sorted[i] && r[j] == sorted[j - 1];
      } else {
        assert r[i] == sorted[i - 1] && r[j] == sorted[j - 1];
      }
    }
  }

  /** Insertion sort of a sequence of pointers. */
  function SortPointers(cats: seq<Cat>, comp: (Cat, Cat) -> bool, ptrs: seq<nat>): (r: seq<nat>)
    requires StrictOrder(comp) && IndicesInto(cats, ptrs)
    ensures IndicesInto(cats, r) && OrderedBy(cats, comp, r)
    ensures multiset(r) == multiset(ptrs)
    decreases |ptrs|
  {
    if ptrs == [] then []
    else
      var rest := SortPointers(cats, comp, ptrs[..|ptrs| - 1]);
      assert ptrs == ptrs[..|ptrs| - 1] + [ptrs[|ptrs| - 1]];
      InsertPointer(cats, comp, rest, ptrs[|ptrs| - 1])
  }

  /** The addresses of the cats in order: `0, 1, …, n - 1`. */
  function AllPointers(n: nat): (r: seq<nat>)
    ensures |r| == n
    ensures forall k :: 0 <= k < n ==> r[k] == k
  {
    seq(n, k => k)
  }

  /** `GetSortedCats`: one pointer per cat, ordered by `comp`; an empty
      vector gives no pointers and a single cat gives its own pointer. The
      cats themselves are not touched. */
  function GetSortedCats(cats: seq<Cat>, comp: (Cat, Cat) -> bool): (r: seq<nat>)
    requires StrictOrder(comp)
    ensures IndicesInto(cats, r) && OrderedBy(cats, comp, r)
    ensures multiset(r) == multiset(AllPointers(|cats|))
    ensures |cats| == 0 ==> r == []
    ensures |cats| == 1 ==> r == [0]
  {
    if |cats| == 0 then []
    else
      var pointers := AllPointers(|cats|);
      if |pointers| == 1 then pointers
      else SortPointers(cats, comp, pointers)
  }

  /** The sorted pointers are a permutation of the cats' addresses: each
      cat is pointed to exactly once. */
  lemma SortedCatsAreAPermutation(cats: seq<Cat>, comp: (Cat, Cat) -> bool)
    requires StrictOrder(comp)
    ensures |GetSortedCats(cats, comp)| == |cats|
    ensures forall k: nat :: k < |cats| ==> multiset(GetSortedCats(cats, comp))[k] == 1
  {
    var r: seq<nat> := GetSortedCats(cats, comp);
    var m: multiset<nat> := multiset(r);
    assert |r| == |m| == |multiset(AllPointers(|cats|))| == |cats|;
    forall k: nat | k < |cats|
      ensures m[k] == 1
    {
      AllPointersOnce(|cats|, k);
    }
  }

  lemma {:induction false} AllPointersOnce(n: nat, k: nat)
    requires k < n
    ensures multiset(AllPointers(n))[k] == 1
  {
    if k < n - 1 {
      AllPointersOnce(n - 1, k);
    }
    assert AllPointers(n) == AllPointers(n - 1) + [n - 1];
  }

  // ---------------------------------------------------------------------------
  // The two comparators of `main`
  // ---------------------------------------------------------------------------

  function BreedRank(b: CatBreed): nat {
    match b
    case Bengal => 0
    case Balinese => 1
    case Persian => 2
    case Siamese => 3
    case Siberian => 4
    case Sphynx => 5
  }

  function GenderRank(g: Gender): nat {
    if g == Male then 0 else 1
  }

  /** `std::string`'s `<`: lexicographic by character code. */
  predicate StringLess(a: string, b: string) {
    if b == [] then false
    else if a == [] then true
    else a[0] < b[0] || (a[0] == b[0] && StringLess(a[1..], b[1..]))
  }

  lemma {:induction false} StringLessIrreflexive(a: string)
    ensures !StringLess(a, a)
  {
    if a != [] {
      StringLessIrreflexive(a[1..]);
    }
  }

  lemma {:induction false} StringLessTransitive(a: string, b: string, c: string)
    requires StringLess(a, b) && StringLess(b, c)
    ensures StringLess(a, c)
  {
    if a != [] && a[0] == b[0] && b[0] == c[0] {
      StringLessTransitive(a[1..], b[1..], c[1..]);
    }
  }

  /** `tie(lhs.breed, lhs.name) < tie(rhs.breed, rhs.name)`. */
  function ByBreedAndName(): (Cat, Cat) -> bool {
    (x: Cat, y: Cat) => BreedRank(x.breed) < BreedRank(y.breed)
                        || (x.breed == y.breed && StringLess(x.name, y.name))
  }

  /** `tie(lhs.gender, lhs.breed) < tie(rhs.gender, rhs.breed)`. */
  function ByGenderAndBreed(): (Cat, Cat) -> bool {
    (x: Cat, y: Cat) => GenderRank(x.gender) < GenderRank(y.gender)
                        || (x.gender == y.gender && BreedRank(x.breed) < BreedRank(y.breed))
  }

  lemma BreedRankInjective(a: CatBreed, b: CatBreed)
    ensures BreedRank(a) == BreedRank(b) ==> a == b
  {
  }

  /** Both comparators of `main` meet what the sort demands. */
  lemma MainComparatorsAreStrictOrders()
    ensures StrictOrder(ByBreedAndName())
    ensures StrictOrder(ByGenderAndBreed())
  {
    var comp := ByBreedAndName();
    forall x: Cat
      ensures !comp(x, x)
    {
      StringLessIrreflexive(x.name);
    }
    forall x: Cat, y: Cat, z: Cat | comp(x, y) && comp(y, z)
      ensures comp(x, z)
    {
      BreedRankInjective(x.breed, y.breed);
      BreedRankInjective(y.breed, z.breed);
      if x.breed == y.breed && y.breed == z.breed {
        StringLessTransitive(x.name, y.name, z.name);
      }
    }
  }

  // ---------------------------------------------------------------------------
  // Printing
  // ---------------------------------------------------------------------------

  /** The items separated by `", "`. */
  function Join(items: seq<string>): string {
    if items == [] then ""
    else if |items| == 1 then items[0]
    else Join(items[..|items| - 1]) + ", " + items[|items| - 1]
  }

  /** The text of the cats behind `ptrs`, in order. */
  function CatTexts(cats: seq<Cat>, ptrs: seq<nat>): (texts: seq<string>)
    requires IndicesInto(cats, ptrs)
    ensures |texts| == |ptrs|
    ensures forall k :: 0 <= k < |ptrs| ==> texts[k] == CatToString(cats[ptrs[k]])
  {
    seq(|ptrs|, k requires 0 <= k < |ptrs| => CatToString(cats[ptrs[k]]))
  }

  /** One more item extends the join by a separator, unless it is the first. */
  lemma JoinStep(items: seq<string>, i: nat)
    requires i < |items|
    ensures Join(items[..i + 1]) == Join(items[..i]) + (if i > 0 then ", " else "") + items[i]
  {
    assert items[..i + 1][..i] == items[..i];
  }

  /** What follows the `i` items printed so far: a separator when more
      are to come. */
  function Separator(i: nat, n: nat): string {
    if 0 < i < n then ", " else ""
  }

  lemma PrintStep(before: string, after: string, texts: seq<string>, i: nat)
    requires i < |texts|
    requires before == "{" + Join(texts[..i]) + Separator(i, |texts|)
    requires after == before + texts[i] + Separator(i + 1, |texts|)
    ensures after == "{" + Join(texts[..i + 1]) + Separator(i + 1, |texts|)
  {
    JoinStep(texts, i);
  }

  /** `PrintCatPointerValues`: `{`, then each cat's text with `", "` between
      consecutive cats, then `}`; no pointers give `{}`. */
  method PrintCatPointerValues(cats: seq<Cat>, ptrs: seq<nat>) returns (out: string)
    requires IndicesInto(cats, ptrs)
    ensures out == "{" + Join(CatTexts(cats, ptrs)) + "}"
    ensures ptrs == [] ==> out == "{}"
  {
    out := "{";
    if |ptrs| == 0 {
      out := out + "}";
      return;
    }
    ghost var texts := CatTexts(cats, ptrs);
    var i := 0;
    while i < |ptrs|
      invariant 0 <= i <= |ptrs|
      invariant out == "{" + Join(texts[..i]) + Separator(i, |ptrs|)
    {
      ghost var before := out;
      out := out + CatToString(cats[ptrs[i]]);
      if i < |ptrs| - 1 {
        out := out + ", ";
      }
      PrintStep(before, out, texts, i);
      i := i + 1;
    }
    assert texts[..i] == texts;
    out := out + "}";
  }

  /** `Join` puts exactly one separator between consecutive items: its
      length is the items' lengths plus two per gap. */
  lemma {:induction false} JoinLength(items: seq<string>)
    ensures |Join(items)| == TotalLength(items) + (if |items| > 0 then 2 * (|items| - 1) else 0)
    decreases |items|
  {
    if |items| > 1 {
      JoinLength(items[..|items| - 1]);
      TotalLengthSnoc(items);
    } else if |items| == 1 {
      TotalLengthSnoc(items);
    }
  }

  function TotalLength(items: seq<string>): nat {
    if items == [] then 0 else TotalLength(items[..|items| - 1]) + |items[|items| - 1]|
  }

  lemma TotalLengthSnoc(items: seq<string>)
    requires items != []
    ensures TotalLength(items) == TotalLength(items[..|items| - 1]) + |items[|items| - 1]|
  {
  }
}
