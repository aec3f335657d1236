/** Values and helpers shared by the back end and the client model: optional values,
    JavaScript truthiness of request fields, string trimming and case-insensitive search,
    integer ceiling division, and the list operations the handlers are built from. */
module Common {

  /** Record identifiers (Mongo ObjectIds, client `_id` strings) are opaque; an integer
      allocated from a counter stands for them. */
  type Id = int

  /** `Date.now` is abstracted to a monotonically increasing counter. */
  type Time = int

  datatype Option<T> = None | Some(value: T)

  /** The placeholder image URL used by `createBlog` and by the client's image-error handlers. */
  const Placeholder: string := "https://via.placeholder.com/300x200"

  /** An HTTP response: the status code, the `message` of the JSON body, and the record the
      body carries, if any. */
  datatype Reply<T> = Reply(status: int, message: string, body: Option<T>)

  /** A request field is truthy in JavaScript exactly when it is given and is not the empty string. */
  predicate Present(field: Option<string>) {
    field.Some? && field.value != ""
  }

  // ---------------------------------------------------------------------------------------------
  // Strings

  /** The characters `String.prototype.trim` removes: ECMAScript WhiteSpace and LineTerminator. */
  predicate IsJsSpace(c: char) {
    || c == ' ' || c == '\t' || c == '\n' || c == '\r'
    || c == '\U{000B}' || c == '\U{000C}' || c == '\U{00A0}' || c == '\U{1680}'
    || ('\U{2000}' <= c <= '\U{200A}')
    || c == '\U{2028}' || c == '\U{2029}' || c == '\U{202F}' || c == '\U{205F}'
    || c == '\U{3000}' || c == '\U{FEFF}'
  }

  /** Drops leading whitespace: the result is the suffix of `s` that starts at its first
      non-space character. */
  function TrimStart(s: string): (r: string)
    ensures |r| <= |s| && r == s[|s| - |r|..]
    ensures r == [] || !IsJsSpace(r[0])
    ensures forall i :: 0 <= i < |s| - |r| ==> IsJsSpace(s[i])
  {
    if s != [] && IsJsSpace(s[0]) then TrimStart(s[1..]) else s
  }

  /** Drops trailing whitespace: the result is the prefix of `s` that ends at its last
      non-space character. */
  function TrimEnd(s: string): (r: string)
    ensures |r| <= |s| && r == s[..|r|]
    ensures r == [] || !IsJsSpace(r[|r| - 1])
    ensures forall i :: |r| <= i < |s| ==> IsJsSpace(s[i])
  {
    if s != [] && IsJsSpace(s[|s| - 1]) then TrimEnd(s[..|s| - 1]) else s
  }

  /** The number of whitespace characters `trim` drops from the front of `s`. */
  function LeadingSpace(s: string): (n: nat)
    ensures n <= |s| && TrimStart(s) == s[n..]
    ensures forall i :: 0 <= i < n ==> IsJsSpace(s[i])
  {
    |s| - |TrimStart(s)|
  }

  /** `String.prototype.trim`, which a Mongoose `trim: true` field applies before storing. The
      result is a contiguous piece of `s`, everything cut off is whitespace, and the result
      neither starts nor ends with whitespace. */
  function Trim(s: string): (r: string)
    ensures LeadingSpace(s) + |r| <= |s|
    ensures r == s[LeadingSpace(s)..LeadingSpace(s) + |r|]
    ensures forall i :: 0 <= i < LeadingSpace(s) ==> IsJsSpace(s[i])
    ensures forall i :: LeadingSpace(s) + |r| <= i < |s| ==> IsJsSpace(s[i])
    ensures NoEdgeSpace(r)
  {
    var t := TrimStart(s);
    var r := TrimEnd(t);
    TrimShape(s, LeadingSpace(s), t, r);
    r
  }

  /** The shape of a trim: when `t` is the suffix of `s` from `k` and does not start with
      whitespace, and `r` is the prefix of `t` that does not end with whitespace and is
      followed in `t` only by whitespace, then `r` is the piece of `s` from `k`, only
      whitespace follows it in `s`, and it has no whitespace at either end. */
  lemma TrimShape(s: string, k: nat, t: string, r: string)
    requires k <= |s| && t == s[k..] && (t == [] || !IsJsSpace(t[0]))
    requires |r| <= |t| && r == t[..|r|] && (r == [] || !IsJsSpace(r[|r| - 1]))
    requires forall i :: |r| <= i < |t| ==> IsJsSpace(t[i])
    ensures k + |r| <= |s| && r == s[k..k + |r|]
    ensures forall i :: k + |r| <= i < |s| ==> IsJsSpace(s[i])
    ensures NoEdgeSpace(r)
  {
    forall i | k + |r| <= i < |s| ensures IsJsSpace(s[i]) {
      assert s[i] == t[i - k];
    }
    if r != [] {
      assert r[0] == t[0];
    }
  }

  /** Trimming an already trimmed string changes nothing, so a stored (trimmed) title survives
      being saved again unchanged. */
  lemma {:induction false} TrimIdempotent(s: string)
    ensures Trim(Trim(s)) == Trim(s)
  {
    var t := Trim(s);
    NoEdgeSpaceTrimmed(t);
  }

  /** Neither end of `s` is whitespace: what a trimmed string looks like. */
  predicate NoEdgeSpace(s: string) {
    s != [] ==> !IsJsSpace(s[0]) && !IsJsSpace(s[|s| - 1])
  }

  /** A string with no whitespace at either end is its own trim. */
  lemma {:induction false} NoEdgeSpaceTrimmed(s: string)
    requires NoEdgeSpace(s)
    ensures Trim(s) == s
  {
    assert TrimStart(s) == s;
    assert TrimEnd(s) == s;
  }

  /** A string made only of whitespace trims to the empty string (and so fails a
      `required: true` check once trimmed). */
  lemma BlankTrimsToEmpty(s: string)
    requires forall i :: 0 <= i < |s| ==> IsJsSpace(s[i])
    ensures Trim(s) == ""
  {
  }

  /** ASCII case folding, standing in for the `i` option of a Mongo regular expression. */
  function LowerChar(c: char): char {
    if 'A' <= c <= 'Z' then (c as int + 32) as char else c
  }

  function Lower(s: string): (r: string)
    ensures |r| == |s|
    ensures forall i :: 0 <= i < |s| ==> r[i] == LowerChar(s[i])
  {
    if s == [] then [] else [LowerChar(s[0])] + Lower(s[1..])
  }

  /** Folding twice is folding once: matching ignores case in both arguments. */
  lemma LowerIdempotent(s: string)
    ensures Lower(Lower(s)) == Lower(s)
  {
  }

  predicate IsPrefix(p: string, s: string) {
    |p| <= |s| && s[..|p|] == p
  }

  /** `needle` occurs somewhere in `hay` as a contiguous substring. */
  predicate Contains(hay: string, needle: string)
    decreases |hay|
  {
    IsPrefix(needle, hay) || (hay != [] && Contains(hay[1..], needle))
  }

  /** An occurrence at any position `i` is found by the recursive search. */
  lemma {:induction false} ContainsAt(hay: string, needle: string, i: nat)
    requires i + |needle| <= |hay| && hay[i..i + |needle|] == needle
    ensures Contains(hay, needle)
    decreases i
  {
    if i == 0 {
      assert hay[..|needle|] == needle;
    } else {
      assert hay[1..][i - 1..i - 1 + |needle|] == hay[i..i + |needle|];
      ContainsAt(hay[1..], needle, i - 1);
    }
  }

  /** Case-insensitive substring search. */
  predicate ContainsIgnoreCase(hay: string, needle: string) {
    Contains(Lower(hay), Lower(needle))
  }

  // ---------------------------------------------------------------------------------------------
  // Integers

  function Min(a: int, b: int): int { if a <= b then a else b }

  /** `Math.ceil(a / b)` for a positive divisor. */
  function CeilDiv(a: int, b: int): (r: int)
    requires b > 0
    ensures (r - 1) * b < a <= r * b
    ensures a >= 0 ==> r >= 0
  {
    var q := (a + b - 1) / b;
    assert q * b <= a + b - 1 < q * b + b;
    q
  }

  // ---------------------------------------------------------------------------------------------
  // Sequences

  /** `Array.prototype.filter` (and a Mongo `find` with an equality filter): keeps, in order,
      exactly the elements that satisfy `p`. */
  function Filter<T>(xs: seq<T>, p: T -> bool): (r: seq<T>)
    ensures |r| <= |xs|
    ensures forall i :: 0 <= i < |r| ==> r[i] in xs && p(r[i])
    ensures forall i :: 0 <= i < |xs| && p(xs[i]) ==> xs[i] in r
    ensures (forall i :: 0 <= i < |xs| ==> p(xs[i])) ==> r == xs
  {
    if xs == [] then []
    else if p(xs[0]) then [xs[0]] + Filter(xs[1..], p)
    else Filter(xs[1..], p)
  }

  /** Filtering distributes over concatenation, so order is preserved. */
  lemma {:induction false} FilterAppend<T>(a: seq<T>, b: seq<T>, p: T -> bool)
    ensures Filter(a + b, p) == Filter(a, p) + Filter(b, p)
  {
    if a != [] {
      assert (a + b)[1..] == a[1..] + b;
      FilterAppend(a[1..], b, p);
    } else {
      assert a + b == b;
    }
  }

  /** Filtering with a stronger predicate can be done after filtering with a weaker one; in
      particular the stronger filter never keeps more. */
  lemma {:induction false} FilterNarrow<T>(xs: seq<T>, p: T -> bool, q: T -> bool)
    requires forall x :: x in xs && p(x) ==> q(x)
    ensures Filter(xs, p) == Filter(Filter(xs, q), p)
    ensures |Filter(xs, p)| <= |Filter(xs, q)|
  {
    if xs != [] {
      FilterNarrow(xs[1..], p, q);
    }
  }

  /** Two predicates that agree on every element filter alike. */
  lemma {:induction false} FilterAgree<T>(xs: seq<T>, p: T -> bool, q: T -> bool)
    requires forall x :: x in xs ==> p(x) == q(x)
    ensures Filter(xs, p) == Filter(xs, q)
  {
    if xs != [] {
      FilterAgree(xs[1..], p, q);
    }
  }

  function Reverse<T>(xs: seq<T>): (r: seq<T>)
    ensures |r| == |xs|
    ensures forall i :: 0 <= i < |xs| ==> r[i] == xs[|xs| - 1 - i]
  {
    if xs == [] then [] else Reverse(xs[1..]) + [xs[0]]
  }

  /** Keys strictly increase along the sequence (ids and creation times in a collection). */
  predicate StrictlyIncreasing<T>(xs: seq<T>, key: T -> int) {
    forall i, j :: 0 <= i < j < |xs| ==> key(xs[i]) < key(xs[j])
  }

  /** Dropping the first element keeps the keys strictly increasing, and that element's key is
      below every later one. */
  lemma IncreasingTail<T>(xs: seq<T>, key: T -> int)
    requires StrictlyIncreasing(xs, key) && xs != []
    ensures StrictlyIncreasing(xs[1..], key)
    ensures forall i :: 0 <= i < |xs[1..]| ==> key(xs[0]) < key(xs[1..][i])
  {
    var tail := xs[1..];
    forall i, j | 0 <= i < j < |tail| ensures key(tail[i]) < key(tail[j]) {
      assert tail[i] == xs[i + 1] && tail[j] == xs[j + 1];
    }
    forall i | 0 <= i < |tail| ensures key(xs[0]) < key(tail[i]) {
      assert tail[i] == xs[i + 1];
    }
  }

  /** Every key in the sequence is below `bound`. */
  predicate AllBelow<T>(xs: seq<T>, key: T -> int, bound: int) {
    forall i :: 0 <= i < |xs| ==> key(xs[i]) < bound
  }

  /** Keys never increase along the sequence (`.sort({ createdAt: -1 })`). */
  predicate SortedDesc<T>(xs: seq<T>, key: T -> int) {
    forall i, j :: 0 <= i < j < |xs| ==> key(xs[i]) >= key(xs[j])
  }

  /** Appending a key larger than every present key keeps the keys strictly increasing. */
  lemma AppendIncreasing<T>(xs: seq<T>, x: T, key: T -> int)
    requires StrictlyIncreasing(xs, key) && AllBelow(xs, key, key(x))
    ensures StrictlyIncreasing(xs + [x], key)
  {
  }

  /** Replacing an element by one with the same key keeps keys increasing and bounded. */
  lemma ReplaceSameKey<T>(xs: seq<T>, i: nat, x: T, key: T -> int)
    requires i < |xs| && key(x) == key(xs[i])
    ensures StrictlyIncreasing(xs, key) ==> StrictlyIncreasing(xs[i := x], key)
    ensures forall bound :: AllBelow(xs, key, bound) ==> AllBelow(xs[i := x], key, bound)
  {
  }

  /** A filtered sequence is a subsequence, so increasing keys stay increasing. */
  lemma {:induction false} FilterIncreasing<T>(xs: seq<T>, p: T -> bool, key: T -> int)
    requires StrictlyIncreasing(xs, key)
    ensures StrictlyIncreasing(Filter(xs, p), key)
    ensures forall bound :: AllBelow(xs, key, bound) ==> AllBelow(Filter(xs, p), key, bound)
  {
    if xs != [] {
      FilterIncreasing(xs[1..], p, key);
      var rest := Filter(xs[1..], p);
      forall y | y in rest ensures key(xs[0]) < key(y) {
        var j :| 0 <= j < |xs[1..]| && xs[1..][j] == y;
        assert xs[j + 1] == y;
      }
      forall bound | AllBelow(xs, key, bound) ensures AllBelow(Filter(xs, p), key, bound) {
        var r := Filter(xs, p);
        forall i | 0 <= i < |r| ensures key(r[i]) < bound {
          assert r[i] in xs;
        }
      }
    }
  }

  /** Places `x` into a sequence sorted newest-first, before the first key not above its own. */
  function InsertDesc<T>(x: T, xs: seq<T>, key: T -> int): (r: seq<T>)
    requires SortedDesc(xs, key)
    ensures SortedDesc(r, key)
    ensures multiset(r) == multiset(xs) + multiset{x}
  {
    if xs == [] then [x]
    else if key(x) >= key(xs[0]) then [x] + xs
    else
      var rest := InsertDesc(x, xs[1..], key);
      InsertDescBelowHead(x, xs, rest, key);
      [xs[0]] + rest
  }

  /** The step of `InsertDesc` that keeps the head: `rest`, the tail with `x` inserted, stays
      below the head, so putting the head back in front keeps the order and the contents. */
  lemma InsertDescBelowHead<T>(x: T, xs: seq<T>, rest: seq<T>, key: T -> int)
    requires SortedDesc(xs, key) && xs != [] && key(x) < key(xs[0])
    requires SortedDesc(rest, key) && multiset(rest) == multiset(xs[1..]) + multiset{x}
    ensures SortedDesc([xs[0]] + rest, key)
    ensures multiset([xs[0]] + rest) == multiset(xs) + multiset{x}
  {
    assert multiset(xs) == multiset{xs[0]} + multiset(xs[1..]) by {
      assert xs == [xs[0]] + xs[1..];
    }
    forall i | 0 <= i < |rest| ensures key(xs[0]) >= key(rest[i]) {
      assert rest[i] in multiset(rest);
      if rest[i] != x {
        var j :| 0 <= j < |xs[1..]| && xs[1..][j] == rest[i];
        assert rest[i] == xs[j + 1];
      }
    }
    var r := [xs[0]] + rest;
    forall i, j | 0 <= i < j < |r| ensures key(r[i]) >= key(r[j]) {
      if i > 0 {
        assert r[i] == rest[i - 1] && r[j] == rest[j - 1];
      } else {
        assert r[j] == rest[j - 1];
      }
    }
  }

  /** An insertion sort by `key`, largest first: the stand-in for a database
      `.sort({ field: -1 })`. The result is sorted and is a permutation of the input. */
  function SortDesc<T>(xs: seq<T>, key: T -> int): (r: seq<T>)
    ensures SortedDesc(r, key)
    ensures multiset(r) == multiset(xs)
    ensures |r| == |xs|
  {
    if xs == [] then []
    else
      assert xs == [xs[0]] + xs[1..];
      InsertDesc(xs[0], SortDesc(xs[1..], key), key)
  }

  /** Inserting a key smaller than all others puts it last. */
  lemma {:induction false} InsertSmallestLast<T>(x: T, xs: seq<T>, key: T -> int)
    requires SortedDesc(xs, key)
    requires forall i :: 0 <= i < |xs| ==> key(x) < key(xs[i])
    ensures InsertDesc(x, xs, key) == xs + [x]
  {
    if xs != [] {
      var tail := xs[1..];
      assert SortedDesc(tail, key) by {
        forall i, j | 0 <= i < j < |tail| ensures key(tail[i]) >= key(tail[j]) {
          assert tail[i] == xs[i + 1] && tail[j] == xs[j + 1];
        }
      }
      forall i | 0 <= i < |tail| ensures key(x) < key(tail[i]) {
        assert tail[i] == xs[i + 1];
      }
      InsertSmallestLast(x, tail, key);
      assert InsertDesc(x, xs, key) == [xs[0]] + InsertDesc(x, tail, key);
      assert xs == [xs[0]] + tail;
    }
  }

  /** A key below every key of `xs` is below every key of its reverse. */
  lemma BelowReverse<T>(x: T, xs: seq<T>, key: T -> int)
    requires forall i :: 0 <= i < |xs| ==> key(x) < key(xs[i])
    ensures forall i :: 0 <= i < |Reverse(xs)| ==> key(x) < key(Reverse(xs)[i])
  {
    var rev := Reverse(xs);
    forall i | 0 <= i < |rev| ensures key(x) < key(rev[i]) {
      assert rev[i] == xs[|xs| - 1 - i];
    }
  }

  /** When the keys already increase along the sequence (creation order), newest-first is
      exactly the reverse of that order. */
  lemma {:induction false} SortIncreasingIsReverse<T>(xs: seq<T>, key: T -> int)
    requires StrictlyIncreasing(xs, key)
    ensures SortDesc(xs, key) == Reverse(xs)
  {
    if xs != [] {
      var tail := xs[1..];
      IncreasingTail(xs, key);
      SortIncreasingIsReverse(tail, key);
      var rev := Reverse(tail);
      assert SortedDesc(rev, key);
      BelowReverse(xs[0], tail, key);
      InsertSmallestLast(xs[0], rev, key);
      assert SortDesc(xs, key) == InsertDesc(xs[0], rev, key);
      assert Reverse(xs) == rev + [xs[0]];
    }
  }

  /** The position of the first element whose id is `id`, if any (`findById`). */
  function IndexOf<T>(xs: seq<T>, idOf: T -> Id, id: Id): (r: Option<nat>)
    ensures r.Some? ==> r.value < |xs| && idOf(xs[r.value]) == id
    ensures r.Some? ==> forall k :: 0 <= k < r.value ==> idOf(xs[k]) != id
    ensures r.None? <==> forall k :: 0 <= k < |xs| ==> idOf(xs[k]) != id
  {
    if xs == [] then None
    else if idOf(xs[0]) == id then Some(0)
    else
      match IndexOf(xs[1..], idOf, id)
      case None => None
      case Some(k) => Some(k + 1)
  }

  /** The element with id `id`, if any. */
  function Lookup<T>(xs: seq<T>, idOf: T -> Id, id: Id): (r: Option<T>)
    ensures r.Some? <==> exists k :: 0 <= k < |xs| && idOf(xs[k]) == id
    ensures r.Some? ==> r.value in xs && idOf(r.value) == id
  {
    match IndexOf(xs, idOf, id)
    case None => None
    case Some(k) => Some(xs[k])
  }

  /** With strictly increasing ids, the element found is the only one with that id. */
  lemma LookupUnique<T>(xs: seq<T>, idOf: T -> Id, id: Id, k: nat)
    requires StrictlyIncreasing(xs, idOf)
    requires k < |xs| && idOf(xs[k]) == id
    ensures IndexOf(xs, idOf, id) == Some(k)
    ensures Lookup(xs, idOf, id) == Some(xs[k])
  {
  }

  /** `prev.filter(x => x._id !== id)` and `findByIdAndDelete`: keeps, in order, every element
      whose id differs from `id`. */
  function RemoveById<T>(xs: seq<T>, idOf: T -> Id, id: Id): (r: seq<T>)
    ensures forall i :: 0 <= i < |r| ==> r[i] in xs && idOf(r[i]) != id
    ensures forall i :: 0 <= i < |xs| && idOf(xs[i]) != id ==> xs[i] in r
    ensures (forall k :: 0 <= k < |xs| ==> idOf(xs[k]) != id) ==> r == xs
  {
    Filter(xs, x => idOf(x) != id)
  }

  /** Removing the same id twice is removing it once. */
  lemma RemoveByIdIdempotent<T>(xs: seq<T>, idOf: T -> Id, id: Id)
    ensures RemoveById(RemoveById(xs, idOf, id), idOf, id) == RemoveById(xs, idOf, id)
  {
  }

  /** With unique ids, removing a present id shortens the sequence by exactly one. */
  lemma {:induction false} RemoveByIdLength<T>(xs: seq<T>, idOf: T -> Id, id: Id)
    requires StrictlyIncreasing(xs, idOf)
    ensures |RemoveById(xs, idOf, id)| == |xs| - (if Lookup(xs, idOf, id).Some? then 1 else 0)
  {
    if xs != [] {
      var tail := xs[1..];
      IncreasingTail(xs, idOf);
      assert RemoveById(xs, idOf, id) ==
        (if idOf(xs[0]) != id then [xs[0]] else []) + RemoveById(tail, idOf, id);
      if idOf(xs[0]) == id {
        forall k | 0 <= k < |tail| ensures idOf(tail[k]) != id {
          assert tail[k] == xs[k + 1];
        }
        assert RemoveById(tail, idOf, id) == tail;
      } else {
        RemoveByIdLength(tail, idOf, id);
        assert IndexOf(xs, idOf, id).Some? == IndexOf(tail, idOf, id).Some?;
      }
    }
  }

  /** Two sequences with the same multiset have the same elements. */
  lemma SameMembers<T>(a: seq<T>, b: seq<T>)
    requires multiset(a) == multiset(b)
    ensures forall i :: 0 <= i < |a| ==> a[i] in b
    ensures forall i :: 0 <= i < |b| ==> b[i] in a
  {
    forall i | 0 <= i < |a| ensures a[i] in b {
      assert a[i] in multiset(a);
    }
    forall i | 0 <= i < |b| ensures b[i] in a {
      assert b[i] in multiset(b);
    }
  }

  /** `prev.map(x => x._id === id ? f(x) : x)`: same length and order, `f` applied exactly to the
      elements whose id is `id`, every other element untouched. */
  function MapById<T>(xs: seq<T>, idOf: T -> Id, id: Id, f: T -> T): (r: seq<T>)
    ensures |r| == |xs|
    ensures forall i :: 0 <= i < |xs| ==> r[i] == if idOf(xs[i]) == id then f(xs[i]) else xs[i]
  {
    if xs == [] then []
    else [if idOf(xs[0]) == id then f(xs[0]) else xs[0]] + MapById(xs[1..], idOf, id, f)
  }

  /** The result of `$skip: skip` followed by `$limit: limit`: at most `limit` elements, the
      elements of `xs` from position `skip` on, in order. */
  function Page<T>(xs: seq<T>, skip: nat, limit: nat): (r: seq<T>)
    ensures |r| <= limit
    ensures |r| == if skip >= |xs| then 0 else Min(limit, |xs| - skip)
    ensures forall k :: 0 <= k < |r| ==> r[k] == xs[skip + k]
  {
    if skip >= |xs| then [] else xs[skip..Min(skip + limit, |xs|)]
  }

  /** Every element of a page is an element of the sequence paged. */
  lemma PageWithin<T>(xs: seq<T>, skip: nat, limit: nat)
    ensures forall k :: 0 <= k < |Page(xs, skip, limit)| ==> Page(xs, skip, limit)[k] in xs
  {
  }

  /** Pages 1 to n of `xs`, `limit` elements per page, concatenated. */
  function FirstPages<T>(xs: seq<T>, limit: nat, n: nat): seq<T> {
    if n == 0 then [] else FirstPages(xs, limit, n - 1) + Page(xs, (n - 1) * limit, limit)
  }

  /** One more page adds `limit` to the number of elements covered. */
  lemma MulSucc(n: nat, limit: nat)
    requires n > 0
    ensures n * limit == (n - 1) * limit + limit
  {
  }

  lemma SliceJoin<T>(xs: seq<T>, a: nat, b: nat)
    requires a <= b <= |xs|
    ensures xs[..a] + xs[a..b] == xs[..b]
  {
  }

  /** The first n pages are exactly the first n*limit elements. */
  lemma {:induction false} FirstPagesArePrefix<T>(xs: seq<T>, limit: nat, n: nat)
    ensures FirstPages(xs, limit, n) == xs[..Min(n * limit, |xs|)]
  {
    if n > 0 {
      FirstPagesArePrefix(xs, limit, n - 1);
      var a: nat := (n - 1) * limit;
      var b: nat := n * limit;
      MulSucc(n, limit);
      assert b == a + limit;
      var pre := xs[..Min(a, |xs|)];
      var pg := Page(xs, a, limit);
      assert FirstPages(xs, limit, n) == pre + pg;
      if a >= |xs| {
        assert pg == [];
        assert Min(b, |xs|) == |xs| == Min(a, |xs|);
      } else {
        assert pg == xs[a..Min(b, |xs|)];
        SliceJoin(xs, a, Min(b, |xs|));
      }
    }
  }

  /** Reading pages 1 to ceil(|xs| / limit) visits every element exactly once, in order. */
  lemma PagesCoverAll<T>(xs: seq<T>, limit: nat)
    requires limit > 0
    ensures FirstPages(xs, limit, CeilDiv(|xs|, limit)) == xs
  {
    var n := CeilDiv(|xs|, limit);
    FirstPagesArePrefix(xs, limit, n);
    assert xs[..|xs|] == xs;
  }

  /** Page `page` (counting from 1) holds something exactly when `page` is at most
      ceil(|xs| / limit), the reported number of pages. */
  lemma PageNonEmptyIff<T>(xs: seq<T>, page: int, limit: nat, skip: nat)
    requires page >= 1 && limit > 0 && skip == (page - 1) * limit
    ensures |Page(xs, skip, limit)| > 0 <==> page <= CeilDiv(|xs|, limit)
  {
    var n := CeilDiv(|xs|, limit);
    assert (n - 1) * limit < |xs| <= n * limit;
    if page <= n {
      MulMonotone(page - 1, n - 1, limit);
      assert skip < |xs|;
    } else {
      MulMonotone(n, page - 1, limit);
      assert skip >= |xs|;
    }
  }

  lemma MulMonotone(a: int, b: int, c: nat)
    requires a <= b
    ensures a * c <= b * c
  {
    var d := b - a;
    assert b * c == a * c + d * c;
  }
}
