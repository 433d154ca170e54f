/** Shared vocabulary: optional values, partial-update fields, HTTP-style errors, and the
    small sequence and string helpers that the endpoints' queries are built from. */
module Common {

  datatype Option<T> = None | Some(value: T)

  /** One field of a partial update (a pydantic model read with `exclude_unset=True`):
      either the client left it out, or it supplied a value. */
  datatype Patch<T> = Keep | Put(value: T)

  function Patched<T>(p: Patch<T>, current: T): T
  {
    match p
    case Keep => current
    case Put(v) => v
  }

  /** The rejections the endpoints raise as HTTPException (or that FastAPI raises for them). */
  datatype Error =
    | ValidationFailed               // 422: body, form or query parameter rejected by its declared constraints
    | BadCredentials                 // 401: "Incorrect username or password"
    | InactiveUser                   // 400
    | NotEnoughPermissions           // 403: teacher-only endpoint
    | OnlyStudents                   // 403: student-only endpoint
    | TextbookNotFound               // 404
    | StudentNotFound                // 404
    | UserNotFound                   // 404
    | DamageReportNotFound           // 404
    | FoundReportNotFound            // 404
    | TextbookNotActive              // 400
    | StudentNotActive               // 400
    | TextbookAlreadyIssued          // 400
    | TextbookNotIssued              // 400
    | NotIssuedToYou                 // 400
    | TextbookAlreadyReturned        // 400
    | DamageReportAlreadyChecked     // 400
    | FoundAlreadyReturned           // 400
    | StudentAlreadyExists           // 400
    | StudentHasAccount              // 400
    | UsernameTaken                  // 400
    | OnlyStudentAccounts            // 400: "Can only link / activate / deactivate student accounts"
    | CannotDeleteYourself           // 400
    | UsernameRegistered             // 400
    | EmailRegistered                // 400
    | GradeRequiredForIssueSummary   // 400
    | GradeRequiredForReturnReminder // 400
    | InvalidNotificationType        // 400
    | InternalError                  // 500: an exception raised after the commit

  datatype Result<T> = Ok(value: T) | Err(error: Error)

  function StatusCode(e: Error): (code: int)
    ensures code in {400, 401, 403, 404, 422, 500}
  {
    match e
    case ValidationFailed => 422
    case BadCredentials => 401
    case NotEnoughPermissions | OnlyStudents => 403
    case TextbookNotFound | StudentNotFound | UserNotFound | DamageReportNotFound | FoundReportNotFound => 404
    case InternalError => 500
    case _ => 400
  }

  const Minute: int := 60
  const Day: int := 86400

  function Min(a: int, b: int): int { if a <= b then a else b }

  /** Python truthiness of an optional string: None and "" are both false. */
  predicate Truthy(s: Option<string>)
  {
    s.Some? && s.value != ""
  }

  predicate StartsWith(s: string, prefix: string)
  {
    |prefix| <= |s| && s[..|prefix|] == prefix
  }

  /** Python's `s[:n]`. */
  function Take<T>(s: seq<T>, n: nat): (r: seq<T>)
    ensures |r| == Min(n, |s|)
    ensures r == s[..|r|]
  {
    if n <= |s| then s[..n] else s
  }

  // ---------------------------------------------------------------------------
  // Queries over a table, in table order.

  /** `[x for x in s if p(x)]`; defined from the back so that a left-to-right loop
      that appends the kept elements can be proved against it. */
  function Filter<T>(s: seq<T>, p: T -> bool): (r: seq<T>)
    ensures |r| <= |s|
    ensures forall i :: 0 <= i < |r| ==> p(r[i])
  {
    if |s| == 0 then []
    else Filter(s[..|s| - 1], p) + (if p(s[|s| - 1]) then [s[|s| - 1]] else [])
  }

  /** Concatenation regrouped; used where an accumulator grows by a computed block. */
  lemma AppendAssoc<T>(a: seq<T>, b: seq<T>, c: seq<T>)
    ensures (a + b) + c == a + (b + c)
  {
  }

  lemma {:induction false} FilterMembership<T>(s: seq<T>, p: T -> bool, x: T)
    ensures x in Filter(s, p) <==> x in s && p(x)
  {
    if |s| > 0 {
      var init := s[..|s| - 1];
      FilterMembership(init, p, x);
      assert s == init + [s[|s| - 1]];
    }
  }

  lemma {:induction false} FilterAppend<T>(s: seq<T>, x: T, p: T -> bool)
    ensures Filter(s + [x], p) == Filter(s, p) + (if p(x) then [x] else [])
  {
    assert (s + [x])[..|s + [x]| - 1] == s;
  }

  lemma {:induction false} FilterAll<T>(s: seq<T>, p: T -> bool)
    requires forall i :: 0 <= i < |s| ==> p(s[i])
    ensures Filter(s, p) == s
  {
    if |s| > 0 {
      FilterAll(s[..|s| - 1], p);
    }
  }

  /** The blocks `f` gives for the elements of `s`, concatenated in order (a loop that
      appends zero or more items per element). */
  function Collect<T, U>(s: seq<T>, f: T -> seq<U>): seq<U>
  {
    if |s| == 0 then []
    else Collect(s[..|s| - 1], f) + f(s[|s| - 1])
  }

  lemma CollectAppend<T, U>(s: seq<T>, x: T, f: T -> seq<U>)
    ensures Collect(s + [x], f) == Collect(s, f) + f(x)
  {
    assert (s + [x])[..|s + [x]| - 1] == s;
  }

  lemma {:induction false} CollectMembership<T, U>(s: seq<T>, f: T -> seq<U>, u: U)
    ensures u in Collect(s, f) <==> exists i :: 0 <= i < |s| && u in f(s[i])
  {
    if |s| > 0 {
      var init := s[..|s| - 1];
      CollectMembership(init, f, u);
      if u in Collect(init, f) {
        var i :| 0 <= i < |init| && u in f(init[i]);
        assert s[i] == init[i];
      }
      if exists i :: 0 <= i < |s| && u in f(s[i]) {
        var i :| 0 <= i < |s| && u in f(s[i]);
        if i < |init| {
          assert init[i] == s[i];
        }
      }
    }
  }

  /** `f` applied to every element, in order (a loop that appends one item per element). */
  function Map<T, U>(s: seq<T>, f: T -> U): (r: seq<U>)
    ensures |r| == |s|
    ensures forall i :: 0 <= i < |s| ==> r[i] == f(s[i])
  {
    if |s| == 0 then []
    else Map(s[..|s| - 1], f) + [f(s[|s| - 1])]
  }

  lemma MapAppend<T, U>(s: seq<T>, x: T, f: T -> U)
    ensures Map(s + [x], f) == Map(s, f) + [f(x)]
  {
    assert (s + [x])[..|s + [x]| - 1] == s;
  }

  /** `[f(i, x) for i, x in enumerate(s)]`. */
  function Enumerate<T, U>(s: seq<T>, f: (nat, T) -> U): (r: seq<U>)
    ensures |r| == |s|
  {
    if |s| == 0 then [] else Enumerate(s[..|s| - 1], f) + [f(|s| - 1, s[|s| - 1])]
  }

  lemma {:induction false} EnumerateAt<T, U>(s: seq<T>, f: (nat, T) -> U, i: nat)
    requires i < |s|
    ensures Enumerate(s, f)[i] == f(i, s[i])
  {
    var n := |s| - 1;
    if i < n {
      EnumerateAt(s[..n], f, i);
    }
  }

  /** Mapping two rearrangements of the same elements gives rearrangements of the same
      images. */
  lemma {:induction false} MapMultiset<T, U>(a: seq<T>, b: seq<T>, f: T -> U)
    requires multiset(a) == multiset(b)
    ensures multiset(Map(a, f)) == multiset(Map(b, f))
    decreases |a|
  {
    if |a| == 0 {
      assert |b| == |multiset(b)| == 0;
    } else {
      var n := |a| - 1;
      var x := a[n];
      assert a == a[..n] + [x];
      assert x in multiset(b);
      var j :| 0 <= j < |b| && b[j] == x;
      var front, back := b[..j], b[j + 1..];
      assert b == front + [x] + back;
      assert multiset(a) == multiset(a[..n]) + multiset{x};
      assert multiset(b) == multiset(front + back) + multiset{x} by {
        assert front + [x] + back == (front + back)[..j] + [x] + (front + back)[j..];
        assert multiset(front + [x] + back) == multiset(front) + multiset{x} + multiset(back);
      }
      RemoveCommon(multiset(a[..n]), multiset(front + back), x);
      MapMultiset(a[..n], front + back, f);
      MapAppend(a[..n], x, f);
      MapRemoveMid(front, x, back, f);
    }
  }

  lemma RemoveCommon<T>(m: multiset<T>, k: multiset<T>, x: T)
    requires m + multiset{x} == k + multiset{x}
    ensures m == k
  {
    assert m == (m + multiset{x}) - multiset{x};
    assert k == (k + multiset{x}) - multiset{x};
  }

  /** Taking one element out of the middle takes its image out of the mapped sequence. */
  lemma {:induction false} MapRemoveMid<T, U>(front: seq<T>, x: T, back: seq<T>, f: T -> U)
    ensures multiset(Map(front + [x] + back, f)) == multiset(Map(front + back, f)) + multiset{f(x)}
    decreases |back|
  {
    if |back| == 0 {
      assert front + [x] + back == front + [x];
      assert front + back == front;
      MapAppend(front, x, f);
    } else {
      var n := |back| - 1;
      var init, y := back[..n], back[n];
      assert front + [x] + back == (front + [x] + init) + [y];
      assert front + back == (front + init) + [y];
      MapRemoveMid(front, x, init, f);
      MapAppend(front + [x] + init, y, f);
      MapAppend(front + init, y, f);
    }
  }

  lemma MapConcat<T, U>(a: seq<T>, b: seq<T>, f: T -> U)
    ensures Map(a + b, f) == Map(a, f) + Map(b, f)
  {
    var m, r := Map(a + b, f), Map(a, f) + Map(b, f);
    forall i | 0 <= i < |m| ensures m[i] == r[i] {
      if i < |a| {
        assert (a + b)[i] == a[i];
      } else {
        assert (a + b)[i] == b[i - |a|];
      }
    }
  }

  /** Rows numbered from `n + 1` on, followed by rows numbered on from where they stop. */
  lemma NumberedConcat<T>(a: seq<T>, b: seq<T>, idOf: T -> int, n: int)
    requires forall k :: 0 <= k < |a| ==> idOf(a[k]) == n + k + 1
    requires forall k :: 0 <= k < |b| ==> idOf(b[k]) == n + |a| + k + 1
    ensures forall k :: 0 <= k < |a + b| ==> idOf((a + b)[k]) == n + k + 1
  {
    forall k | |a| <= k < |a + b| ensures idOf((a + b)[k]) == n + k + 1 {
      assert (a + b)[k] == b[k - |a|];
    }
  }

  /** `[f(i) for i in range(n)]`. */
  function Tabulate<U>(n: nat, f: nat -> U): (r: seq<U>)
    ensures |r| == n
  {
    if n == 0 then [] else Tabulate(n - 1, f) + [f(n - 1)]
  }

  lemma {:induction false} TabulateAt<U>(n: nat, f: nat -> U, i: nat)
    requires i < n
    ensures Tabulate(n, f)[i] == f(i)
  {
    if i < n - 1 {
      TabulateAt(n - 1, f, i);
    }
  }

  /** One more element of a prefix. */
  lemma PrefixStep<T>(s: seq<T>, j: nat)
    requires j < |s|
    ensures s[..j + 1] == s[..j] + [s[j]]
  {
  }

  lemma WholePrefix<T>(s: seq<T>)
    ensures s[..|s|] == s
  {
  }

  /** Non-decreasing by `key`. */
  predicate SortedBy<T>(s: seq<T>, key: T -> int)
  {
    forall i, j :: 0 <= i < j < |s| ==> key(s[i]) <= key(s[j])
  }

  /** Inserts `x` after every leading element whose key is at most `key(x)`. */
  function InsertBy<T>(x: T, s: seq<T>, key: T -> int): (r: seq<T>)
    requires SortedBy(s, key)
    ensures SortedBy(r, key)
    ensures multiset(r) == multiset(s) + multiset{x}
  {
    if |s| == 0 then [x]
    else if key(x) < key(s[0]) then [x] + s
    else
      assert s == [s[0]] + s[1..];
      var rest := InsertBy(x, s[1..], key);
      SortedCons(s[0], s[1..], x, rest, key);
      [s[0]] + rest
  }

  /** A head no larger than any element of the tail or the inserted element stays in front. */
  lemma SortedCons<T>(h: T, tail: seq<T>, x: T, rest: seq<T>, key: T -> int)
    requires SortedBy([h] + tail, key) && key(h) <= key(x)
    requires SortedBy(rest, key) && multiset(rest) == multiset(tail) + multiset{x}
    ensures SortedBy([h] + rest, key)
  {
    forall k | 0 <= k < |rest| ensures key(h) <= key(rest[k]) {
      assert rest[k] in multiset(rest);
      if rest[k] != x {
        assert rest[k] in multiset(tail);
        var m :| 0 <= m < |tail| && tail[m] == rest[k];
        assert ([h] + tail)[0] == h && ([h] + tail)[m + 1] == tail[m];
      }
    }
    var r := [h] + rest;
    forall i, j | 0 <= i < j < |r| ensures key(r[i]) <= key(r[j]) {
      if i > 0 {
        assert r[i] == rest[i - 1] && r[j] == rest[j - 1];
      } else {
        assert r[j] == rest[j - 1];
      }
    }
  }

  /** A stable sort by `key`: each element goes in after the earlier ones with an equal key
      (Python's `list.sort(key=...)`). */
  function SortBy<T>(s: seq<T>, key: T -> int): (r: seq<T>)
    ensures SortedBy(r, key)
    ensures multiset(r) == multiset(s)
  {
    if |s| == 0 then []
    else
      assert s == s[..|s| - 1] + [s[|s| - 1]];
      InsertBy(s[|s| - 1], SortBy(s[..|s| - 1], key), key)
  }

  /** Number of elements of `s` satisfying `p`, defined by the same recursion. */
  function Count<T>(s: seq<T>, p: T -> bool): (n: nat)
    ensures n <= |s|
  {
    if |s| == 0 then 0
    else Count(s[..|s| - 1], p) + (if p(s[|s| - 1]) then 1 else 0)
  }

  lemma {:induction false} CountIsFilterLength<T>(s: seq<T>, p: T -> bool)
    ensures Count(s, p) == |Filter(s, p)|
  {
    if |s| > 0 {
      CountIsFilterLength(s[..|s| - 1], p);
    }
  }

  /** When `f` yields one item for the elements satisfying `p` and none for the others, the
      collected items are those elements' items, one each, in order: the element at `k`
      contributes the item at the number of earlier elements satisfying `p`. */
  lemma {:induction false} CollectSingletons<T, U>(s: seq<T>, f: T -> seq<U>, p: T -> bool)
    requires forall x :: |f(x)| == (if p(x) then 1 else 0)
    ensures |Collect(s, f)| == Count(s, p)
    ensures forall k :: 0 <= k < |s| && p(s[k]) ==>
              Count(s[..k], p) < |Collect(s, f)| && Collect(s, f)[Count(s[..k], p)] == f(s[k])[0]
  {
    if |s| > 0 {
      var n := |s| - 1;
      var init := s[..n];
      CollectSingletons(init, f, p);
      forall k | 0 <= k < |s| && p(s[k])
        ensures Count(s[..k], p) < |Collect(s, f)| && Collect(s, f)[Count(s[..k], p)] == f(s[k])[0]
      {
        if k < n {
          assert s[k] == init[k] && s[..k] == init[..k];
        } else {
          assert s[..k] == init;
        }
      }
    }
  }

  /** Two predicates that never hold together and always one of them holds split a count. */
  lemma {:induction false} CountSplit<T>(s: seq<T>, p: T -> bool, q: T -> bool)
    requires forall i :: 0 <= i < |s| ==> (p(s[i]) <==> !q(s[i]))
    ensures Count(s, p) + Count(s, q) == |s|
  {
    if |s| > 0 {
      CountSplit(s[..|s| - 1], p, q);
    }
  }

  /** Two predicates that never hold together count, between them, the elements where one
      of them holds. */
  lemma {:induction false} CountDisjoint<T>(s: seq<T>, p: T -> bool, q: T -> bool, r: T -> bool)
    requires forall i :: 0 <= i < |s| ==> r(s[i]) == (p(s[i]) || q(s[i])) && !(p(s[i]) && q(s[i]))
    ensures Count(s, p) + Count(s, q) == Count(s, r)
  {
    if |s| > 0 {
      CountDisjoint(s[..|s| - 1], p, q, r);
    }
  }

  /** Predicates that agree on every element count alike. */
  lemma {:induction false} CountSame<T>(s: seq<T>, p: T -> bool, q: T -> bool)
    requires forall i :: 0 <= i < |s| ==> p(s[i]) == q(s[i])
    ensures Count(s, p) == Count(s, q)
  {
    if |s| > 0 {
      CountSame(s[..|s| - 1], p, q);
    }
  }

  /** Predicates that agree on every element select alike. */
  lemma {:induction false} FilterSame<T>(s: seq<T>, p: T -> bool, q: T -> bool)
    requires forall i :: 0 <= i < |s| ==> p(s[i]) == q(s[i])
    ensures Filter(s, p) == Filter(s, q)
  {
    if |s| > 0 {
      FilterSame(s[..|s| - 1], p, q);
    }
  }

  /** Index of the first element satisfying `p`: the `.first()` of a filtered query. */
  function IndexWhere<T>(s: seq<T>, p: T -> bool): (r: Option<nat>)
    ensures r.None? <==> forall i :: 0 <= i < |s| ==> !p(s[i])
    ensures r.Some? ==> r.value < |s| && p(s[r.value]) && forall j :: 0 <= j < r.value ==> !p(s[j])
  {
    if |s| == 0 then None
    else if p(s[0]) then Some(0)
    else match IndexWhere(s[1..], p)
      case None => None
      case Some(k) => Some(k + 1)
  }

  function FirstWhere<T>(s: seq<T>, p: T -> bool): (r: Option<T>)
    ensures r.None? <==> forall i :: 0 <= i < |s| ==> !p(s[i])
    ensures r.Some? ==> p(r.value) && exists i :: 0 <= i < |s| && s[i] == r.value
  {
    match IndexWhere(s, p)
    case None => None
    case Some(k) => Some(s[k])
  }

  /** Appending an element changes the first match only when there was none. */
  lemma FirstWhereAppend<T>(s: seq<T>, x: T, p: T -> bool)
    ensures FirstWhere(s + [x], p) ==
            if FirstWhere(s, p).Some? then FirstWhere(s, p) else if p(x) then Some(x) else None
  {
    var s' := s + [x];
    assert forall i :: 0 <= i < |s| ==> s'[i] == s[i];
    match IndexWhere(s, p)
    case Some(k) =>
      var k' := IndexWhere(s', p).value;
      assert p(s'[k]);
    case None =>
      if p(x) {
        assert p(s'[|s|]);
      }
  }

  /** A lookup by primary key: index of the first row whose id is `id`. */
  function FindById<T>(s: seq<T>, idOf: T -> int, id: int): (r: Option<nat>)
    ensures r.None? <==> forall i :: 0 <= i < |s| ==> idOf(s[i]) != id
    ensures r.Some? ==> r.value < |s| && idOf(s[r.value]) == id
  {
    IndexWhere(s, x => idOf(x) == id)
  }

  /** Autoincrement keys over a table whose rows are never deleted: row i has id i + 1. */
  ghost predicate DenseIds<T>(s: seq<T>, idOf: T -> int)
  {
    forall i :: 0 <= i < |s| ==> idOf(s[i]) == i + 1
  }

  /** On a table with dense ids, a filter that selects one id keeps at most that row. */
  lemma {:induction false} FilterSingleId<T>(s: seq<T>, idOf: T -> int, p: T -> bool, id: int, n: nat)
    requires DenseIds(s, idOf) && n <= |s|
    requires forall i :: 0 <= i < |s| ==> (p(s[i]) <==> idOf(s[i]) == id)
    ensures Filter(s[..n], p) == if 1 <= id <= n then [s[id - 1]] else []
  {
    if n > 0 {
      FilterSingleId(s, idOf, p, id, n - 1);
      var last := s[n - 1];
      PrefixStep(s, n - 1);
      FilterAppend(s[..n - 1], last, p);
      assert p(last) <==> n == id;
      if n == id {
        assert Filter(s[..n], p) == [] + [last];
      } else {
        assert Filter(s[..n], p) == Filter(s[..n - 1], p);
      }
    }
  }

  lemma FindDense<T>(s: seq<T>, idOf: T -> int, id: int)
    requires DenseIds(s, idOf)
    ensures FindById(s, idOf, id) == if 1 <= id <= |s| then Some(id - 1) else None
  {
    var r := FindById(s, idOf, id);
    if 1 <= id <= |s| {
      assert idOf(s[id - 1]) == id;
    }
  }

  /** `query.offset(skip).limit(limit)`. */
  function Paginate<T>(s: seq<T>, skip: nat, limit: nat): (r: seq<T>)
    ensures |r| == Min(limit, if skip <= |s| then |s| - skip else 0)
    ensures forall i :: 0 <= i < |r| ==> skip + i < |s| && r[i] == s[skip + i]
  {
    var rest := if skip <= |s| then s[skip..] else [];
    if limit <= |rest| then rest[..limit] else rest
  }

  /** FastAPI's `Query(0, ge=0)` for skip and `Query(100, ge=1, le=1000)` for limit. */
  predicate ValidPage(skip: int, limit: int)
  {
    0 <= skip && 1 <= limit <= 1000
  }

  // ---------------------------------------------------------------------------
  // Strings.

  /** Python's `sep.join(parts)`. */
  function Join(parts: seq<string>, sep: string): string
  {
    if |parts| == 0 then ""
    else if |parts| == 1 then parts[0]
    else parts[0] + sep + Join(parts[1..], sep)
  }

  lemma JoinTwo(a: string, b: string, sep: string)
    ensures Join([a, b], sep) == a + sep + b
  {
    assert [a, b][1..] == [b];
  }

  lemma JoinThree(a: string, b: string, c: string, sep: string)
    ensures Join([a, b, c], sep) == a + sep + b + sep + c
  {
    assert [a, b, c][1..] == [b, c];
    JoinTwo(b, c, sep);
  }

  lemma {:induction false} JoinStartsWithFirst(parts: seq<string>, sep: string)
    requires |parts| > 0
    ensures StartsWith(Join(parts, sep), parts[0])
  {
    if |parts| > 1 {
      var rest := sep + Join(parts[1..], sep);
      assert Join(parts, sep) == parts[0] + rest;
      assert (parts[0] + rest)[..|parts[0]|] == parts[0];
    }
  }

  function DigitChar(d: nat): char
    requires d < 10
  {
    "0123456789"[d]
  }

  predicate IsDigit(c: char)
  {
    '0' <= c <= '9'
  }

  /** `str(n)` for a natural number. */
  function DecimalString(n: nat): (s: string)
    ensures |s| > 0
    ensures forall i :: 0 <= i < |s| ==> IsDigit(s[i])
    decreases n
  {
    if n < 10 then [DigitChar(n)] else DecimalString(n / 10) + [DigitChar(n % 10)]
  }

  /** `str(n)` for any integer: a minus sign before the digits of |n|. */
  function IntString(n: int): string
  {
    if n < 0 then "-" + DecimalString(-n) else DecimalString(n)
  }

  /** The value of a string of digits, read as a decimal numeral (the inverse of DecimalString). */
  function DecimalValue(s: string): nat
    requires forall i :: 0 <= i < |s| ==> IsDigit(s[i])
  {
    if |s| == 0 then 0
    else
      var last := s[|s| - 1];
      assert IsDigit(last);
      10 * DecimalValue(s[..|s| - 1]) + ((last as int) - ('0' as int))
  }

  lemma {:induction false} DecimalRoundTrip(n: nat)
    ensures DecimalValue(DecimalString(n)) == n
    decreases n
  {
    var s := DecimalString(n);
    if n >= 10 {
      DecimalRoundTrip(n / 10);
      assert s[..|s| - 1] == DecimalString(n / 10);
    }
  }

  /** Leading zeros do not change a numeral's value. */
  lemma {:induction false} DecimalValueLeadingZeros(z: string, s: string)
    requires forall i :: 0 <= i < |z| ==> z[i] == '0'
    requires forall i :: 0 <= i < |s| ==> IsDigit(s[i])
    ensures forall i :: 0 <= i < |z + s| ==> IsDigit((z + s)[i])
    ensures DecimalValue(z + s) == DecimalValue(s)
    decreases |s|
  {
    if |s| == 0 {
      assert z + s == z;
      AllZerosValue(z);
    } else {
      var init := s[..|s| - 1];
      DecimalValueLeadingZeros(z, init);
      assert (z + s)[..|z + s| - 1] == z + init;
    }
  }

  lemma {:induction false} AllZerosValue(z: string)
    requires forall i :: 0 <= i < |z| ==> z[i] == '0'
    ensures DecimalValue(z) == 0
  {
    if |z| > 0 {
      AllZerosValue(z[..|z| - 1]);
    }
  }
  /** Different integers print differently. */
  lemma IntStringInjective(a: int, b: int)
    ensures IntString(a) == IntString(b) ==> a == b
  {
    if IntString(a) == IntString(b) {
      if a >= 0 && b >= 0 {
        DecimalStringInjective(a, b);
      } else if a < 0 && b < 0 {
        NegativeString(a);
        NegativeString(b);
        DecimalStringInjective(-a, -b);
      } else if a < 0 {
        NegativeString(a);
        NaturalString(b);
      } else {
        NegativeString(b);
        NaturalString(a);
      }
    }
  }

  lemma DecimalStringInjective(a: nat, b: nat)
    requires DecimalString(a) == DecimalString(b)
    ensures a == b
  {
    DecimalRoundTrip(a);
    DecimalRoundTrip(b);
  }

  lemma NegativeString(n: int)
    requires n < 0
    ensures |IntString(n)| > 0 && IntString(n)[0] == '-' && IntString(n)[1..] == DecimalString(-n)
  {
  }

  lemma NaturalString(n: int)
    requires n >= 0
    ensures |IntString(n)| > 0 && IsDigit(IntString(n)[0])
  {
  }
}
