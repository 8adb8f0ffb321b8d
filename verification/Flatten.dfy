/** Byte sequences cut into pieces. */
module Flatten {
  type byte = x: int | 0 <= x < 256

  ghost function Flat<T>(segs: seq<seq<T>>): seq<T> {
    if segs == [] then [] else segs[0] + Flat(segs[1..])
  }

  lemma Assoc<T>(a: seq<T>, b: seq<T>, c: seq<T>)
    ensures (a + b) + c == a + (b + c)
  {
  }

  lemma TailOfSum<T>(a: seq<T>, b: seq<T>)
    requires a != []
    ensures (a + b)[0] == a[0] && (a + b)[1..] == a[1..] + b && a + b != []
  {
  }

  lemma FlatUnfold<T>(segs: seq<seq<T>>)
    ensures segs != [] ==> Flat(segs) == segs[0] + Flat(segs[1..])
    ensures segs == [] ==> Flat(segs) == []
  {
  }

  lemma {:induction false} FlatConcat<T>(a: seq<seq<T>>, b: seq<seq<T>>)
    ensures Flat(a + b) == Flat(a) + Flat(b)
  {
    hide Flat;
    FlatUnfold(a);
    if a == [] {
      assert a + b == b;
    } else {
      FlatConcat(a[1..], b);
      TailOfSum(a, b);
      FlatUnfold(a + b);
      Assoc(a[0], Flat(a[1..]), Flat(b));
    }
  }

  lemma FlatSingle<T>(s: seq<T>)
    ensures Flat([s]) == s
  {
    assert Flat([s]) == s + Flat([]);
  }

  lemma FlatAppend<T>(a: seq<seq<T>>, s: seq<T>)
    ensures Flat(a + [s]) == Flat(a) + s
  {
    hide Flat;
    FlatConcat(a, [s]);
    FlatSingle(s);
  }

  lemma Cut<T>(s: seq<T>, i: nat)
    requires i <= |s|
    ensures s == s[..i] + s[i..]
    ensures i < |s| ==> s[..i + 1] == s[..i] + [s[i]]
  {
  }

  lemma FlatSplit<T>(segs: seq<seq<T>>, i: nat)
    requires i <= |segs|
    ensures Flat(segs) == Flat(segs[..i]) + Flat(segs[i..])
  {
    hide Flat;
    Cut(segs, i);
    FlatConcat(segs[..i], segs[i..]);
  }

  /** The segment `i` in its place. */
  lemma FlatAt<T>(segs: seq<seq<T>>, i: nat)
    requires i < |segs|
    ensures Flat(segs) == Flat(segs[..i]) + segs[i] + Flat(segs[i + 1..])
    ensures Flat(segs[i..]) == segs[i] + Flat(segs[i + 1..])
    ensures Flat(segs[..i + 1]) == Flat(segs[..i]) + segs[i]
  {
    hide Flat;
    FlatTail(segs, i);
    FlatUpTo(segs, i);
    FlatSplit(segs, i + 1);
  }

  lemma FlatUpTo<T>(segs: seq<seq<T>>, i: nat)
    requires i < |segs|
    ensures Flat(segs[..i + 1]) == Flat(segs[..i]) + segs[i]
  {
    hide Flat;
    Cut(segs, i);
    FlatAppend(segs[..i], segs[i]);
  }

  lemma FlatTail<T>(segs: seq<seq<T>>, i: nat)
    requires i < |segs|
    ensures Flat(segs[i..]) == segs[i] + Flat(segs[i + 1..])
  {
    assert segs[i..][1..] == segs[i + 1..];
  }

  /** Only empty segments: nothing in them. */
  lemma {:induction false} FlatEmpty<T>(segs: seq<seq<T>>)
    ensures Flat(segs) == [] <==> forall i :: 0 <= i < |segs| ==> segs[i] == []
  {
    if segs != [] {
      FlatEmpty(segs[1..]);
      assert Flat(segs) == [] <==> segs[0] == [] && Flat(segs[1..]) == [];
      assert forall i :: 0 < i < |segs| ==> segs[i] == segs[1..][i - 1];
    }
  }

  lemma FlatExtendLast<T>(segs: seq<seq<T>>, data: seq<T>)
    requires segs != []
    ensures var n := |segs| - 1; Flat(segs[n := segs[n] + data]) == Flat(segs) + data
  {
    var n := |segs| - 1;
    FlatAppend(segs[..n], segs[n]);
    FlatAppend(segs[..n], segs[n] + data);
    assert segs == segs[..n] + [segs[n]];
    assert segs[n := segs[n] + data] == segs[..n] + [segs[n] + data];
    assert Flat(segs[..n]) + (segs[n] + data) == (Flat(segs[..n]) + segs[n]) + data;
  }

  lemma FlatExtendFirst<T>(segs: seq<seq<T>>, data: seq<T>)
    requires segs != []
    ensures Flat(segs[0 := data + segs[0]]) == data + Flat(segs)
  {
    var u := segs[0 := data + segs[0]];
    assert u[1..] == segs[1..];
    assert (data + segs[0]) + Flat(segs[1..]) == data + (segs[0] + Flat(segs[1..]));
  }

  lemma FlatDropFirst<T>(segs: seq<seq<T>>, k: nat)
    requires segs != [] && k <= |segs[0]|
    ensures k <= |Flat(segs)| && Flat(segs[0 := segs[0][k..]]) == Flat(segs)[k..]
    ensures Flat(segs)[..k] == segs[0][..k]
  {
    var u := segs[0 := segs[0][k..]];
    assert u[1..] == segs[1..];
    assert (segs[0] + Flat(segs[1..]))[k..] == segs[0][k..] + Flat(segs[1..]);
  }

  /** A prefix that ends inside segment `k`. */
  lemma FlatPrefix<T>(segs: seq<seq<T>>, k: nat, rest: nat)
    requires k < |segs| && rest <= |segs[k]|
    ensures var n := |Flat(segs[..k])| + rest; n <= |Flat(segs)| && Flat(segs)[..n] == Flat(segs[..k]) + segs[k][..rest]
    ensures Flat(segs)[|Flat(segs[..k])|..] == Flat(segs[k..])
  {
    FlatAt(segs, k);
    FlatSplit(segs, k);
    assert (Flat(segs[..k]) + segs[k] + Flat(segs[k + 1..]))[..|Flat(segs[..k])| + rest] == Flat(segs[..k]) + segs[k][..rest];
  }
}
