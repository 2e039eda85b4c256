/** Sequence and string operations that the converter takes from LINQ,
    `List<T>` and `System.String`. */
module Seqs {
  import opened Wrappers

  /** The negation of a predicate. */
  function Not<T>(p: T -> bool): T -> bool
  {
    x => !p(x)
  }

  /** Concatenation is associative; a hint for long state-update chains. */
  lemma AppendAssoc<T>(a: seq<T>, b: seq<T>, c: seq<T>)
    ensures a + b + c == a + (b + c)
  {
  }

  /** The values of `rs` concatenated in order, or the first error: what a
      loop computes that appends each success and stops at a failure. */
  function Collect<T, E>(rs: seq<Result<seq<T>, E>>): Result<seq<T>, E>
  {
    if rs == [] then Ok([])
    else match rs[0]
      case Err(e) => Err(e)
      case Ok(cs) =>
        match Collect(rs[1..])
        case Err(e) => Err(e)
        case Ok(more) => Ok(cs + more)
  }

  /** `before` followed by the value of `r`, if `r` succeeded. */
  function Prefixed<T, E>(before: seq<T>, r: Result<seq<T>, E>): Result<seq<T>, E>
  {
    match r
    case Err(e) => Err(e)
    case Ok(cs) => Ok(before + cs)
  }

  /** `Collect` succeeds exactly when every element does, and otherwise
      reports the error of the first failing element. */
  lemma {:induction false} CollectErrors<T, E>(rs: seq<Result<seq<T>, E>>)
    ensures Collect(rs).Ok? <==> forall i :: 0 <= i < |rs| ==> rs[i].Ok?
    ensures Collect(rs).Err? ==> exists i :: 0 <= i < |rs| && rs[i] == Err(Collect(rs).error)
                                   && forall j :: 0 <= j < i ==> rs[j].Ok?
  {
    if rs != [] {
      var tail := rs[1..];
      CollectErrors(tail);
      assert forall i :: 0 < i < |rs| ==> rs[i] == tail[i - 1];
      if rs[0].Ok? && Collect(rs).Err? {
        var i :| 0 <= i < |tail| && tail[i] == Err(Collect(rs).error) && forall j :: 0 <= j < i ==> tail[j].Ok?;
        assert rs[i + 1] == tail[i];
      }
    }
  }

  /** One round of such a loop: a failing element ends it with its error,
      a successful one moves its value onto the prefix. */
  lemma CollectStep<T, E>(rs: seq<Result<seq<T>, E>>, n: nat, before: seq<T>)
    requires n < |rs|
    ensures rs[n].Err? ==> Prefixed(before, Collect(rs[n..])) == Err(rs[n].error)
    ensures rs[n].Ok? ==> Prefixed(before, Collect(rs[n..])) == Prefixed(before + rs[n].value, Collect(rs[n + 1..]))
  {
    assert rs[n..][0] == rs[n] && rs[n..][1..] == rs[n + 1..];
    if rs[n].Ok? {
      match Collect(rs[n + 1..]) {
        case Err(_) =>
        case Ok(more) => AppendAssoc(before, rs[n].value, more);
      }
    }
  }

  /** The elements of `s` that satisfy `p`, in their order (LINQ `Where`). */
  function Filter<T>(p: T -> bool, s: seq<T>): (r: seq<T>)
    ensures |r| <= |s|
  {
    if s == [] then []
    else (if p(s[0]) then [s[0]] else []) + Filter(p, s[1..])
  }

  /** The filter keeps exactly the elements that satisfy `p`. */
  lemma {:induction false} FilterIn<T>(p: T -> bool, s: seq<T>)
    ensures forall x :: x in Filter(p, s) <==> x in s && p(x)
  {
    if s != [] {
      FilterIn(p, s[1..]);
      assert s == [s[0]] + s[1..];
    }
  }

  lemma {:induction false} FilterAppend<T>(p: T -> bool, a: seq<T>, b: seq<T>)
    ensures Filter(p, a + b) == Filter(p, a) + Filter(p, b)
  {
    if a == [] {
      assert a + b == b;
    } else {
      var h := if p(a[0]) then [a[0]] else [];
      assert (a + b)[0] == a[0] && (a + b)[1..] == a[1..] + b;
      assert Filter(p, a + b) == h + Filter(p, a[1..] + b);
      FilterAppend(p, a[1..], b);
      assert Filter(p, a) == h + Filter(p, a[1..]);
      AppendAssoc(h, Filter(p, a[1..]), Filter(p, b));
    }
  }

  /** The filter is empty exactly when no element satisfies `p`. */
  lemma {:induction false} FilterEmpty<T>(p: T -> bool, s: seq<T>)
    ensures Filter(p, s) == [] <==> forall j :: 0 <= j < |s| ==> !p(s[j])
  {
    if s != [] {
      FilterEmpty(p, s[1..]);
      assert forall j :: 0 < j < |s| ==> s[j] == s[1..][j - 1];
    }
  }

  /** Every element of `s` lands either in `Filter(p, s)` or in
      `Filter(Not(p), s)`, so the two sizes add up to `|s|`. */
  lemma {:induction false} FilterPartition<T>(p: T -> bool, s: seq<T>)
    ensures |Filter(p, s)| + |Filter(Not(p), s)| == |s|
  {
    if s != [] {
      FilterPartition(p, s[1..]);
    }
  }

  /** The index of the first element of `s` that satisfies `p` (LINQ
      `FirstOrDefault`, by position). */
  function FirstIndex<T>(p: T -> bool, s: seq<T>): (r: Option<nat>)
    ensures r.Some? ==> r.value < |s| && p(s[r.value])
    ensures r.Some? ==> forall j :: 0 <= j < r.value ==> !p(s[j])
    ensures r.None? ==> forall j :: 0 <= j < |s| ==> !p(s[j])
  {
    if s == [] then None
    else if p(s[0]) then Some(0)
    else match FirstIndex(p, s[1..])
      case None => None
      case Some(i) => Some(i + 1)
  }

  /** Appending keeps a first match that was already there. */
  lemma FirstIndexAppendFound<T>(p: T -> bool, s: seq<T>, t: seq<T>)
    requires FirstIndex(p, s).Some?
    ensures FirstIndex(p, s + t) == FirstIndex(p, s)
  {
    assert (s + t)[FirstIndex(p, s).value] == s[FirstIndex(p, s).value];
  }

  /** Appending a first match puts it at the end. */
  lemma FirstIndexAppendNew<T>(p: T -> bool, s: seq<T>, x: T)
    requires FirstIndex(p, s).None? && p(x)
    ensures FirstIndex(p, s + [x]) == Some(|s|)
  {
    assert (s + [x])[|s|] == x;
  }

  /** `s` without its first element equal to `x` (C# `List.Remove`). */
  function RemoveFirst<T(==)>(s: seq<T>, x: T): (r: seq<T>)
    ensures x in s ==> |r| == |s| - 1
    ensures x !in s ==> r == s
  {
    if s == [] then []
    else if s[0] == x then s[1..]
    else [s[0]] + RemoveFirst(s[1..], x)
  }

  /** Removing `x` loses no other value and adds none. */
  lemma {:induction false} RemoveFirstIn<T>(s: seq<T>, x: T)
    ensures forall y :: y in RemoveFirst(s, x) ==> y in s
    ensures forall y :: y in s && y != x ==> y in RemoveFirst(s, x)
  {
    if s != [] && s[0] != x {
      RemoveFirstIn(s[1..], x);
      assert s == [s[0]] + s[1..];
    }
  }

  /** Removing a present value takes out its first occurrence. */
  lemma RemoveFirstAt<T>(s: seq<T>, x: T)
    requires x in s
    ensures exists i :: && 0 <= i < |s| && s[i] == x && (forall j :: 0 <= j < i ==> s[j] != x)
                        && RemoveFirst(s, x) == s[..i] + s[i + 1..]
  {
    var i := 0;
    while s[i] != x
      invariant 0 <= i < |s| && x in s[i..]
      invariant forall j :: 0 <= j < i ==> s[j] != x
      decreases |s| - i
    {
      assert s[i..] == [s[i]] + s[i + 1..];
      i := i + 1;
    }
    RemoveAt(s, i);
  }

  /** Removing the value at `i`, when no earlier element equals it, takes
      out position `i`. */
  lemma {:induction false} RemoveAt<T>(s: seq<T>, i: nat)
    requires i < |s|
    requires forall j :: 0 <= j < i ==> s[j] != s[i]
    ensures RemoveFirst(s, s[i]) == s[..i] + s[i + 1..]
  {
    if i > 0 {
      assert s[1..][i - 1] == s[i];
      RemoveAt(s[1..], i - 1);
      assert s[..i] == [s[0]] + s[1..][..i - 1];
      assert s[i + 1..] == s[1..][i..];
    }
  }

  /** `s` with its first `k` elements that satisfy `p` taken out: the list
      left after `k` rounds of `list.ForEach(x => layers.Remove(x))`. */
  function DropMatching<T>(p: T -> bool, s: seq<T>, k: nat): seq<T>
  {
    if s == [] then []
    else if p(s[0]) && k > 0 then DropMatching(p, s[1..], k - 1)
    else [s[0]] + DropMatching(p, s[1..], k)
  }

  lemma {:induction false} DropNone<T>(p: T -> bool, s: seq<T>)
    ensures DropMatching(p, s, 0) == s
  {
    if s != [] {
      DropNone(p, s[1..]);
    }
  }

  /** Removing the `k`-th matching element, by value, from the list that
      already lost the first `k` matching elements takes out exactly the
      next matching one: no earlier element equals it. */
  lemma {:induction false} DropOneMore<T>(p: T -> bool, s: seq<T>, k: nat)
    requires k < |Filter(p, s)|
    ensures RemoveFirst(DropMatching(p, s, k), Filter(p, s)[k]) == DropMatching(p, s, k + 1)
  {
    var x := Filter(p, s)[k];
    assert x in Filter(p, s);
    FilterIn(p, s);
    if !p(s[0]) {
      assert s[0] != x;
      assert Filter(p, s) == Filter(p, s[1..]);
      var d := DropMatching(p, s[1..], k);
      assert ([s[0]] + d)[1..] == d;
      DropOneMore(p, s[1..], k);
    } else if k > 0 {
      assert Filter(p, s) == [s[0]] + Filter(p, s[1..]);
      DropOneMore(p, s[1..], k - 1);
    } else {
      assert Filter(p, s)[0] == s[0];
      var d := DropMatching(p, s[1..], 0);
      assert ([s[0]] + d)[1..] == d;
    }
  }

  /** Once every matching element is dropped, what is left is exactly the
      elements that do not match, in their order. */
  lemma {:induction false} DropAll<T>(p: T -> bool, s: seq<T>)
    ensures DropMatching(p, s, |Filter(p, s)|) == Filter(Not(p), s)
  {
    if s != [] {
      DropAll(p, s[1..]);
      var n := |Filter(p, s[1..])|;
      if p(s[0]) {
        assert Filter(p, s) == [s[0]] + Filter(p, s[1..]);
        assert Filter(Not(p), s) == Filter(Not(p), s[1..]);
        assert DropMatching(p, s, n + 1) == DropMatching(p, s[1..], n);
      } else {
        assert Filter(p, s) == Filter(p, s[1..]);
        assert Filter(Not(p), s) == [s[0]] + Filter(Not(p), s[1..]);
        assert DropMatching(p, s, n) == [s[0]] + DropMatching(p, s[1..], n);
      }
    }
  }

  /** `s` in reverse order (LINQ `Reverse`). */
  function Reverse<T>(s: seq<T>): (r: seq<T>)
    ensures |r| == |s|
    ensures forall k :: 0 <= k < |s| ==> r[k] == s[|s| - 1 - k]
  {
    if s == [] then [] else [s[|s| - 1]] + Reverse(s[..|s| - 1])
  }

  lemma ReverseConcat<T>(a: seq<T>, b: seq<T>)
    ensures Reverse(a + b) == Reverse(b) + Reverse(a)
  {
    var r, t := Reverse(a + b), Reverse(b) + Reverse(a);
    forall k | 0 <= k < |r|
      ensures r[k] == t[k]
    {
      if k < |b| {
        assert r[k] == b[|b| - 1 - k];
      } else {
        assert r[k] == a[|a| - 1 - (k - |b|)];
      }
    }
  }

  /** `String.Join(sep, parts)`. */
  function Join(parts: seq<string>, sep: char): string
  {
    if |parts| == 0 then ""
    else if |parts| == 1 then parts[0]
    else parts[0] + [sep] + Join(parts[1..], sep)
  }

  /** `s.Split(sep)`: the pieces between separators; never empty, and an
      empty string gives one empty piece. */
  function Split(s: string, sep: char): (r: seq<string>)
    ensures |r| >= 1
  {
    if s == [] then [""]
    else
      var rest := Split(s[1..], sep);
      if s[0] == sep then [""] + rest else [[s[0]] + rest[0]] + rest[1..]
  }

  /** A separator-free prefix glues onto the first piece of what follows. */
  lemma {:induction false} SplitPrefix(a: string, t: string, sep: char)
    requires sep !in a
    ensures Split(a + t, sep) == [a + Split(t, sep)[0]] + Split(t, sep)[1..]
  {
    if a != [] {
      assert (a + t)[1..] == a[1..] + t;
      SplitPrefix(a[1..], t, sep);
      assert [a[0]] + (a[1..] + Split(t, sep)[0]) == a + Split(t, sep)[0];
    } else {
      var r := Split(t, sep);
      assert a + t == t;
      assert a + r[0] == r[0];
      assert r == [r[0]] + r[1..];
    }
  }

  /** Splitting a joined path gives its segments back, provided no segment
      holds the separator and there is at least one segment. */
  lemma {:induction false} SplitJoin(parts: seq<string>, sep: char)
    requires |parts| >= 1
    requires forall i :: 0 <= i < |parts| ==> sep !in parts[i]
    ensures Split(Join(parts, sep), sep) == parts
  {
    if |parts| == 1 {
      SplitPrefix(parts[0], "", sep);
      assert parts[0] + "" == parts[0];
    } else {
      var rest := Join(parts[1..], sep);
      SplitJoin(parts[1..], sep);
      assert parts[0] + [sep] + rest == parts[0] + ([sep] + rest);
      SplitPrefix(parts[0], [sep] + rest, sep);
      assert ([sep] + rest)[1..] == rest;
      assert parts[0] + "" == parts[0];
    }
  }

  /** The last piece of a split is a separator-free suffix of the string,
      preceded by a separator exactly when there is more than one piece, and
      the whole string when there is only one. */
  lemma SplitLast(s: string, sep: char)
    ensures var r := Split(s, sep); var g := r[|r| - 1];
      && |g| <= |s| && s[|s| - |g|..] == g && sep !in g
      && (|r| == 1 <==> sep !in s)
      && (|r| == 1 ==> g == s)
      && (|r| > 1 ==> |g| < |s| && s[|s| - |g| - 1] == sep)
  {
    SplitLastSuffix(s, sep);
    SplitSingle(s, sep);
  }

  /** The last part of `Split(s, sep)` is a suffix of `s` without the
      separator, and when there are several parts a separator stands right
      before it. */
  predicate LastIsSuffix(s: string, sep: char)
  {
    var r := Split(s, sep); var g := r[|r| - 1];
    && |g| <= |s| && s[|s| - |g|..] == g && sep !in g
    && (|r| > 1 ==> |g| < |s| && s[|s| - |g| - 1] == sep)
  }

  lemma {:induction false} SplitLastSuffix(s: string, sep: char)
    ensures LastIsSuffix(s, sep)
  {
    if s != [] {
      SplitLastSuffix(s[1..], sep);
      SplitSingle(s[1..], sep);
      if s[0] == sep {
        LastIsSuffixSep(s, sep);
      } else {
        LastIsSuffixOther(s, sep);
      }
    }
  }

  lemma LastIsSuffixSep(s: string, sep: char)
    requires s != [] && s[0] == sep
    requires LastIsSuffix(s[1..], sep)
    requires |Split(s[1..], sep)| == 1 ==> Split(s[1..], sep)[0] == s[1..]
    ensures LastIsSuffix(s, sep)
  {
    var rest := Split(s[1..], sep);
    var g := rest[|rest| - 1];
    assert Split(s, sep) == [""] + rest;
    assert s[1..][|s[1..]| - |g|..] == s[|s| - |g|..];
    if |rest| > 1 {
      assert s[1..][|s[1..]| - |g| - 1] == s[|s| - |g| - 1];
    }
  }

  lemma LastIsSuffixOther(s: string, sep: char)
    requires s != [] && s[0] != sep
    requires LastIsSuffix(s[1..], sep)
    requires |Split(s[1..], sep)| == 1 ==> Split(s[1..], sep)[0] == s[1..]
    ensures LastIsSuffix(s, sep)
  {
    var rest := Split(s[1..], sep);
    var g := rest[|rest| - 1];
    if |rest| == 1 {
      assert s == [s[0]] + s[1..];
      assert Split(s, sep) == [[s[0]] + rest[0]];
    } else {
      assert Split(s, sep)[|Split(s, sep)| - 1] == g;
      assert s[1..][|s[1..]| - |g|..] == s[|s| - |g|..];
      assert s[1..][|s[1..]| - |g| - 1] == s[|s| - |g| - 1];
    }
  }

  /** There is a single part exactly when `s` holds no separator, and then
      it is `s` itself. */
  lemma {:induction false} SplitSingle(s: string, sep: char)
    ensures |Split(s, sep)| == 1 <==> sep !in s
    ensures |Split(s, sep)| == 1 ==> Split(s, sep)[0] == s
  {
    if s != [] {
      SplitSingle(s[1..], sep);
      assert s == [s[0]] + s[1..];
      assert sep in s <==> s[0] == sep || sep in s[1..];
    }
  }



  /** `sub` occurs in `s` starting at index `i`. */
  predicate OccursAt(s: string, sub: string, i: int)
  {
    0 <= i && i + |sub| <= |s| && s[i..i + |sub|] == sub
  }

  /** Unanchored pattern match with a literal pattern: `sub` occurs in `s`. */
  function Contains(s: string, sub: string): bool
  {
    if sub <= s then true
    else if s == [] then false
    else Contains(s[1..], sub)
  }

  lemma {:induction false} ContainsIff(s: string, sub: string)
    ensures Contains(s, sub) <==> exists i :: OccursAt(s, sub, i)
  {
    if sub <= s {
      assert OccursAt(s, sub, 0);
    } else if s == [] {
      assert forall i :: !OccursAt(s, sub, i);
    } else {
      ContainsIff(s[1..], sub);
      forall i | OccursAt(s[1..], sub, i)
        ensures OccursAt(s, sub, i + 1)
      {
        assert s[i + 1..i + 1 + |sub|] == s[1..][i..i + |sub|];
      }
      forall i | OccursAt(s, sub, i)
        ensures OccursAt(s[1..], sub, i - 1)
      {
        assert s[i..i + |sub|] == s[1..][i - 1..i - 1 + |sub|];
      }
    }
  }
}
