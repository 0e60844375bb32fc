/** Pure part of a product's image-list handling: the shape of generated
    image paths, the filter that drops a delete-requested path from the list,
    the sequential application of all delete requests, and the properties of
    that filtering (membership, multiplicities, relative order, idempotence,
    independence from the order and repetition of the requests). */
module ImageList {

  /** `null` in the stored record, or an array of paths. */
  datatype Option<T> = None | Some(value: T)

  /** `$product->images ?? []`: a missing list reads as the empty list. */
  function ImagesOrEmpty(images: Option<seq<string>>): seq<string> {
    match images
    case None => []
    case Some(list) => list
  }

  /** The set of paths a list mentions. */
  function Elems(s: seq<string>): set<string> {
    set x | x in s
  }

  /** Every path of the list names a file present in the store. */
  predicate AllStored(list: seq<string>, files: set<string>) {
    forall i :: 0 <= i < |list| ==> list[i] in files
  }

  // ---------------------------------------------------------------------
  // Generated names and paths
  // ---------------------------------------------------------------------

  /** The directory under the public root that receives uploads. */
  const ImagesDir: string := "images"

  function DigitChar(d: nat): (c: char)
    requires d < 10
    ensures '0' <= c <= '9'
    ensures c as int - '0' as int == d
  {
    "0123456789"[d]
  }

  /** PHP's decimal rendering of the integer `time()` returns. */
  function Decimal(n: nat): (r: string)
    ensures |r| >= 1
    ensures forall i :: 0 <= i < |r| ==> '0' <= r[i] <= '9'
    ensures n < 10 <==> |r| == 1
    ensures n >= 10 ==> r[0] != '0'
  {
    if n < 10 then [DigitChar(n)] else Decimal(n / 10) + [DigitChar(n % 10)]
  }

  /** The number a string of decimal digits denotes, most significant first. */
  function DigitsValue(s: string): nat
    requires forall i :: 0 <= i < |s| ==> '0' <= s[i] <= '9'
  {
    if s == [] then 0
    else 10 * DigitsValue(s[..|s| - 1]) + (s[|s| - 1] as int - '0' as int)
  }

  /** The rendering of the clock reading denotes exactly that reading. */
  lemma {:induction false} DecimalValue(n: nat)
    ensures DigitsValue(Decimal(n)) == n
  {
    var r := Decimal(n);
    if n >= 10 {
      DecimalValue(n / 10);
      assert r[..|r| - 1] == Decimal(n / 10);
      assert r[|r| - 1] == DigitChar(n % 10);
    }
  }

  /** `time() . '_' . uniqid() . '.' . $ext`, with `now` the clock reading and
      `id` the value of `uniqid()`. */
  function GeneratedName(now: nat, id: string, ext: string): string {
    Decimal(now) + "_" + id + "." + ext
  }

  /** The path stored in the product's list for a file named `name`. */
  function ImagePath(name: string): string {
    ImagesDir + "/" + name
  }

  /** `p` is the path of a file name generated at time `now` for an upload
      whose client-side extension is `ext`. */
  ghost predicate GeneratedPath(p: string, now: nat, ext: string) {
    exists id :: p == ImagePath(GeneratedName(now, id, ext))
  }

  predicate HasPrefix(p: string, prefix: string) {
    |prefix| <= |p| && p[..|prefix|] == prefix
  }

  predicate HasSuffix(p: string, suffix: string) {
    |suffix| <= |p| && p[|p| - |suffix|..] == suffix
  }

  /** A generated path lies in the images directory, starts with the clock
      reading followed by `_`, and ends in `.` followed by the extension. */
  lemma GeneratedPathShape(now: nat, id: string, ext: string)
    ensures var p := ImagePath(GeneratedName(now, id, ext));
      && HasPrefix(p, "images/" + Decimal(now) + "_")
      && HasSuffix(p, "." + ext)
      && |p| > |id|
  {
    var t := Decimal(now);
    var p := ImagePath(GeneratedName(now, id, ext));
    assert p == ("images/" + t + "_") + id + ("." + ext);
  }

  // ---------------------------------------------------------------------
  // Filtering the list
  // ---------------------------------------------------------------------

  /** Reference definition: the entries of `s` that are not in `doomed`, in
      their original order. */
  function Keep(s: seq<string>, doomed: set<string>): seq<string> {
    if s == [] then []
    else (if s[0] in doomed then [] else [s[0]]) + Keep(s[1..], doomed)
  }

  /** `array_values(array_filter($s, fn($img) => $img !== $p))`. */
  function Without(s: seq<string>, p: string): seq<string> {
    Keep(s, {p})
  }

  /** The delete loop: each requested path, in request order, is filtered
      out of the list left by the requests before it. */
  function RemoveAll(s: seq<string>, requests: seq<string>): seq<string> {
    if requests == [] then s
    else Without(RemoveAll(s, requests[..|requests| - 1]), requests[|requests| - 1])
  }

  /** `a` is `b` with some entries dropped and the others in the same order. */
  predicate IsSubsequence(a: seq<string>, b: seq<string>) {
    a == [] ||
    (b != [] && ((a[0] == b[0] && IsSubsequence(a[1..], b[1..])) || IsSubsequence(a, b[1..])))
  }

  lemma {:induction false} KeepCount(s: seq<string>, doomed: set<string>, x: string)
    ensures multiset(Keep(s, doomed))[x] == if x in doomed then 0 else multiset(s)[x]
  {
    if s != [] {
      KeepCount(s[1..], doomed, x);
      assert s == [s[0]] + s[1..];
      assert multiset(s) == multiset{s[0]} + multiset(s[1..]);
    }
  }

  lemma KeepMembers(s: seq<string>, doomed: set<string>, x: string)
    ensures x in Keep(s, doomed) <==> x in s && x !in doomed
  {
    KeepCount(s, doomed, x);
    assert x in Keep(s, doomed) <==> multiset(Keep(s, doomed))[x] > 0;
    assert x in s <==> multiset(s)[x] > 0;
  }

  lemma {:induction false} KeepAppend(a: seq<string>, b: seq<string>, doomed: set<string>)
    ensures Keep(a + b, doomed) == Keep(a, doomed) + Keep(b, doomed)
  {
    if a == [] {
      assert a + b == b;
    } else {
      assert (a + b)[0] == a[0];
      assert (a + b)[1..] == a[1..] + b;
      KeepAppend(a[1..], b, doomed);
    }
  }

  lemma {:induction false} KeepSubsequence(s: seq<string>, doomed: set<string>)
    ensures IsSubsequence(Keep(s, doomed), s)
  {
    if s != [] {
      KeepSubsequence(s[1..], doomed);
      var k := Keep(s, doomed);
      if s[0] in doomed {
        assert k == Keep(s[1..], doomed);
        assert k == [] || IsSubsequence(k, s[1..]);
      } else {
        assert k == [s[0]] + Keep(s[1..], doomed);
        assert k[0] == s[0] && k[1..] == Keep(s[1..], doomed);
      }
    }
  }

  lemma {:induction false} KeepUntouched(s: seq<string>, doomed: set<string>)
    requires forall i :: 0 <= i < |s| ==> s[i] !in doomed
    ensures Keep(s, doomed) == s
  {
    if s != [] {
      assert s[0] !in doomed;
      KeepUntouched(s[1..], doomed);
      assert s == [s[0]] + s[1..];
    }
  }

  lemma {:induction false} KeepKeep(s: seq<string>, a: set<string>, b: set<string>)
    ensures Keep(Keep(s, a), b) == Keep(s, a + b)
  {
    if s != [] {
      var head := if s[0] in a then [] else [s[0]];
      assert Keep(s, a) == head + Keep(s[1..], a);
      KeepAppend(head, Keep(s[1..], a), b);
      KeepKeep(s[1..], a, b);
      if s[0] !in a {
        assert Keep(head, b) == (if s[0] in b then [] else [s[0]]) + Keep([], b);
      }
    }
  }

  lemma ElemsSnoc(s: seq<string>)
    requires s != []
    ensures Elems(s) == Elems(s[..|s| - 1]) + {s[|s| - 1]}
  {
    assert s == s[..|s| - 1] + [s[|s| - 1]];
  }

  /** Applying the delete requests one after another is the same as one pass
      that keeps exactly the entries no request names. */
  lemma {:induction false} RemoveAllIsKeep(s: seq<string>, requests: seq<string>)
    ensures RemoveAll(s, requests) == Keep(s, Elems(requests))
  {
    if requests == [] {
      assert Elems(requests) == {};
      KeepUntouched(s, {});
    } else {
      var init, last := requests[..|requests| - 1], requests[|requests| - 1];
      RemoveAllIsKeep(s, init);
      KeepKeep(s, Elems(init), {last});
      ElemsSnoc(requests);
    }
  }

  /** One delete request appended to the loop filters one more path. */
  lemma RemoveAllSnoc(s: seq<string>, requests: seq<string>, req: string)
    ensures RemoveAll(s, requests + [req]) == Without(RemoveAll(s, requests), req)
  {
    assert (requests + [req])[..|requests|] == requests;
  }

  /** After the delete loop, a path is listed iff it was listed and not
      requested; every occurrence of a requested path is gone, duplicates
      included, and a surviving path keeps its number of occurrences. */
  lemma RemoveAllCount(s: seq<string>, requests: seq<string>, x: string)
    ensures multiset(RemoveAll(s, requests))[x] == if x in requests then 0 else multiset(s)[x]
    ensures x in RemoveAll(s, requests) <==> x in s && x !in requests
  {
    RemoveAllIsKeep(s, requests);
    KeepCount(s, Elems(requests), x);
    KeepMembers(s, Elems(requests), x);
  }

  /** Survivors keep their original relative order. */
  lemma RemoveAllOrder(s: seq<string>, requests: seq<string>)
    ensures IsSubsequence(RemoveAll(s, requests), s)
  {
    RemoveAllIsKeep(s, requests);
    KeepSubsequence(s, Elems(requests));
  }

  /** Deleting from a concatenation deletes from each part: the filter keeps
      order within and across any split of the list. */
  lemma RemoveAllAppend(a: seq<string>, b: seq<string>, requests: seq<string>)
    ensures RemoveAll(a + b, requests) == RemoveAll(a, requests) + RemoveAll(b, requests)
  {
    RemoveAllIsKeep(a + b, requests);
    RemoveAllIsKeep(a, requests);
    RemoveAllIsKeep(b, requests);
    KeepAppend(a, b, Elems(requests));
  }

  /** The outcome depends only on which paths were requested, not on the
      order of the requests or how often each was made. */
  lemma RemoveAllSameRequests(s: seq<string>, r1: seq<string>, r2: seq<string>)
    requires forall x :: x in r1 <==> x in r2
    ensures RemoveAll(s, r1) == RemoveAll(s, r2)
  {
    RemoveAllIsKeep(s, r1);
    RemoveAllIsKeep(s, r2);
    assert Elems(r1) == Elems(r2);
  }

  /** Requesting the same path twice gives the list requesting it once gives. */
  lemma RemoveAllRepeatedRequest(s: seq<string>, requests: seq<string>, req: string)
    ensures RemoveAll(s, requests + [req, req]) == RemoveAll(s, requests + [req])
  {
    RemoveAllSameRequests(s, requests + [req, req], requests + [req]);
  }

  /** A second run of the same requests changes nothing. */
  lemma RemoveAllIdempotent(s: seq<string>, requests: seq<string>)
    ensures RemoveAll(RemoveAll(s, requests), requests) == RemoveAll(s, requests)
  {
    var d := Elems(requests);
    RemoveAllIsKeep(s, requests);
    RemoveAllIsKeep(RemoveAll(s, requests), requests);
    KeepKeep(s, d, d);
    assert d + d == d;
  }

  /** Requests that name no listed path leave the list as it was. */
  lemma RemoveAllUnknownRequests(s: seq<string>, requests: seq<string>)
    requires forall i :: 0 <= i < |requests| ==> requests[i] !in s
    ensures RemoveAll(s, requests) == s
  {
    RemoveAllIsKeep(s, requests);
    forall i | 0 <= i < |s| ensures s[i] !in Elems(requests) {
      assert s[i] in s;
    }
    KeepUntouched(s, Elems(requests));
  }

  /** If every listed path is stored, then every survivor of the delete
      requests is still stored once the requested files are unlinked. */
  lemma SurvivorsStored(s: seq<string>, requests: seq<string>, files: set<string>)
    requires AllStored(s, files)
    ensures AllStored(RemoveAll(s, requests), files - Elems(requests))
  {
    var r := RemoveAll(s, requests);
    forall i | 0 <= i < |r| ensures r[i] in files - Elems(requests) {
      RemoveAllCount(s, requests, r[i]);
    }
  }
}
