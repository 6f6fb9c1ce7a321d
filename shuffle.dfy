/**
 * The symbol catalogue and `prepareLetters`: a swap-based shuffle whose
 * random choices are supplied by the caller as `draws`, where
 * `draws[i]` stands for `Math.floor(Math.random() * (72 - i))`.
 */
module Shuffle {

  /** The delete-last action symbol (U+2190). */
  const BACKSPACE: char := '\U{2190}'
  /** The commit-buffer action symbol (U+21B5). */
  const ENTER: char := '\U{21B5}'

  /** The 70 printable symbols followed by the two action symbols. */
  const Catalog: seq<char> :=
    "abcdefghijklmnopqrstuvwxyzABCDEFGHIJKLMNOPQRSTUVWXYZ0123456789 ,.?!_-'" + [BACKSPACE, ENTER]

  /** The catalogue holds 72 symbols and ends with the two action symbols. */
  lemma CatalogShape()
    ensures |Catalog| == 72
    ensures Catalog[70] == BACKSPACE && Catalog[71] == ENTER
  {
  }

  /** `s` holds the catalogue's symbols, each as often as the catalogue does. */
  predicate IsCatalogOrder(s: seq<char>)
  {
    multiset(s) == multiset(Catalog)
  }

  /** No symbol occurs twice in a sequence. */
  predicate Distinct(s: seq<char>)
  {
    forall i, j :: 0 <= i < j < |s| ==> s[i] != s[j]
  }

  /** Exchange the elements at `i` and `j`. */
  function Swap(s: seq<char>, i: nat, j: nat): (t: seq<char>)
    requires i < |s| && j < |s|
    ensures |t| == |s| && t[i] == s[j] && t[j] == s[i]
    ensures forall k :: 0 <= k < |s| && k != i && k != j ==> t[k] == s[k]
  {
    s[i := s[j]][j := s[i]]
  }

  /** A swap only rearranges. */
  lemma SwapPermutes(s: seq<char>, i: nat, j: nat)
    requires i < |s| && j < |s|
    ensures multiset(Swap(s, i, j)) == multiset(s)
  {
  }

  /** Draws the random loop of `prepareLetters` can produce for a sequence of length `n`. */
  predicate ValidDraws(n: nat, draws: seq<nat>)
  {
    n >= 1 && |draws| == n - 1 && forall k :: 0 <= k < |draws| ==> draws[k] < n - k
  }

  /**
   * The shuffle as a function: fix position 0 by swapping in the element
   * `draws[0]` places further on, then shuffle the rest.
   */
  function Shuffled(s: seq<char>, draws: seq<nat>): (t: seq<char>)
    requires ValidDraws(|s|, draws)
    ensures |t| == |s|
    decreases |s|
  {
    if |s| == 1 then s
    else
      var u := Swap(s, 0, draws[0]);
      [u[0]] + Shuffled(u[1..], draws[1..])
  }

  /** Whatever the draws, the shuffle is a permutation of its input. */
  lemma {:induction false} ShuffledPermutes(s: seq<char>, draws: seq<nat>)
    requires ValidDraws(|s|, draws)
    ensures multiset(Shuffled(s, draws)) == multiset(s)
    decreases |s|
  {
    if |s| > 1 {
      var u := Swap(s, 0, draws[0]);
      SwapPermutes(s, 0, draws[0]);
      ShuffledPermutes(u[1..], draws[1..]);
      assert u == [u[0]] + u[1..];
    }
  }

  /** Position of the first occurrence of `c` in `s`. */
  function IndexOf(s: seq<char>, c: char): (i: nat)
    requires c in s
    ensures i < |s| && s[i] == c
    ensures forall k :: 0 <= k < i ==> s[k] != c
  {
    if s[0] == c then 0 else 1 + IndexOf(s[1..], c)
  }

  /** Sequences with the same contents and the same head have tails with the same contents. */
  lemma TailsAgree(u: seq<char>, t: seq<char>)
    requires |u| >= 1 && |t| >= 1 && u[0] == t[0] && multiset(u) == multiset(t)
    ensures multiset(u[1..]) == multiset(t[1..])
  {
    assert u == [u[0]] + u[1..];
    assert t == [t[0]] + t[1..];
    assert multiset(u[1..]) == multiset(u) - multiset{u[0]};
    assert multiset(t[1..]) == multiset(t) - multiset{t[0]};
  }

  /** A rearrangement has the same length, and its first symbol occurs in the original. */
  lemma RearrangementHead(s: seq<char>, t: seq<char>)
    requires |s| >= 1 && multiset(t) == multiset(s)
    ensures |t| == |s| && t[0] in s
    ensures |s| == 1 ==> t == s
  {
    assert |t| == |multiset(t)| == |s|;
    assert t[0] in multiset(s);
    if |s| == 1 {
      assert t[0] == s[0];
      assert t == [t[0]] && s == [s[0]];
    }
  }

  /** Drawing `j` first, then `rest`, puts `s[j]` in front of the shuffle of the swapped tail. */
  lemma DrawsStep(s: seq<char>, t: seq<char>, j: nat, rest: seq<nat>)
    requires |s| >= 2 && |t| == |s| && j < |s| && s[j] == t[0]
    requires ValidDraws(|s| - 1, rest)
    requires Shuffled(Swap(s, 0, j)[1..], rest) == t[1..]
    ensures ValidDraws(|s|, [j] + rest)
    ensures Shuffled(s, [j] + rest) == t
  {
    var draws := [j] + rest;
    assert draws[0] == j && draws[1..] == rest;
    assert t == [t[0]] + t[1..];
  }

  /**
   * The draws that make the shuffle of `s` come out as `t`: every
   * rearrangement of the input is reachable.
   */
  function DrawsFor(s: seq<char>, t: seq<char>): (draws: seq<nat>)
    requires |s| >= 1 && multiset(t) == multiset(s)
    ensures ValidDraws(|s|, draws)
    ensures Shuffled(s, draws) == t
    decreases |s|
  {
    RearrangementHead(s, t);
    if |s| == 1 then []
    else
      var j := IndexOf(s, t[0]);
      var u := Swap(s, 0, j);
      SwapPermutes(s, 0, j);
      TailsAgree(u, t);
      var rest := DrawsFor(u[1..], t[1..]);
      DrawsStep(s, t, j, rest);
      [j] + rest
  }

  /**
   * On distinct symbols, different draws give different results; with
   * `DrawsFor` this makes the draws and the orderings of the input
   * correspond one to one.
   */
  lemma {:induction false} ShuffledIsInjective(s: seq<char>, d1: seq<nat>, d2: seq<nat>)
    requires Distinct(s) && ValidDraws(|s|, d1) && ValidDraws(|s|, d2)
    requires Shuffled(s, d1) == Shuffled(s, d2)
    ensures d1 == d2
    decreases |s|
  {
    if |s| > 1 {
      var u1, u2 := Swap(s, 0, d1[0]), Swap(s, 0, d2[0]);
      assert Shuffled(s, d1)[0] == s[d1[0]];
      assert Shuffled(s, d2)[0] == s[d2[0]];
      assert d1[0] == d2[0];
      assert u1 == u2;
      assert Distinct(u1[1..]) by {
        forall a, b | 0 <= a < b < |u1[1..]|
          ensures u1[1..][a] != u1[1..][b]
        {
          assert u1[1..][a] == u1[a + 1] && u1[1..][b] == u1[b + 1];
        }
      }
      assert Shuffled(u1[1..], d1[1..]) == Shuffled(s, d1)[1..];
      ShuffledIsInjective(u1[1..], d1[1..], d2[1..]);
      assert d1 == [d1[0]] + d1[1..] && d2 == [d2[0]] + d2[1..];
    }
  }

  /**
   * One turn of the swap loop at position `i` keeps the value the whole
   * shuffle will reach: fixed prefix, then the shuffle of the rest.
   */
  lemma SwapStep(s: seq<char>, draws: seq<nat>, i: nat)
    requires i + 1 < |s| && |draws| == |s| - 1
    requires ValidDraws(|s| - i, draws[i..])
    ensures ValidDraws(|s| - (i + 1), draws[i + 1..])
    ensures i + draws[i] < |s|
    ensures s[..i] + Shuffled(s[i..], draws[i..])
         == Swap(s, i, i + draws[i])[..i + 1] + Shuffled(Swap(s, i, i + draws[i])[i + 1..], draws[i + 1..])
  {
    var t := Swap(s, i, i + draws[i]);
    var u := Swap(s[i..], 0, draws[i]);
    assert draws[i..][1..] == draws[i + 1..];
    assert t[i..] == u;
    assert t[..i + 1] == s[..i] + [u[0]];
    assert t[i + 1..] == u[1..];
  }

  /** The swap loop of `prepareLetters`, run in place on `a`. */
  method ShuffleInPlace(a: array<char>, draws: seq<nat>)
    requires ValidDraws(a.Length, draws)
    modifies a
    ensures a[..] == Shuffled(old(a[..]), draws)
  {
    ghost var target := Shuffled(a[..], draws);
    for i := 0 to a.Length - 1
      invariant ValidDraws(a.Length - i, draws[i..])
      invariant a[..i] + Shuffled(a[i..], draws[i..]) == target
    {
      SwapStep(a[..], draws, i);
      var j := i + draws[i];
      a[i], a[j] := a[j], a[i];
    }
    assert a[..a.Length - 1] + a[a.Length - 1..] == a[..];
  }

  /** `prepareLetters`: a fresh copy of the catalogue, shuffled in place. */
  method PrepareLetters(draws: seq<nat>) returns (chars: seq<char>)
    requires ValidDraws(72, draws)
    ensures chars == Shuffled(Catalog, draws)
    ensures |chars| == 72
  {
    var a := new char[72](k requires 0 <= k < 72 => Catalog[k]);
    assert a[..] == Catalog;
    ShuffleInPlace(a, draws);
    chars := a[..];
  }

  /** What `prepareLetters` returns is always an ordering of the catalogue. */
  lemma PreparedLettersAreCatalogOrder(draws: seq<nat>)
    requires ValidDraws(72, draws)
    ensures IsCatalogOrder(Shuffled(Catalog, draws))
  {
    ShuffledPermutes(Catalog, draws);
  }
}
