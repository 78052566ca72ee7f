/** Edit distance between commands: the two-row computation, and what it means. */
module Levenshtein {
  import opened Options
  import opened Bytes

  function Min(x: nat, y: nat): nat {
    if x <= y then x else y
  }

  function Front(s: seq<u8>): seq<u8>
    requires s != []
  {
    s[..|s| - 1]
  }

  function Last(s: seq<u8>): u8
    requires s != []
  {
    s[|s| - 1]
  }

  function Cost(x: u8, y: u8): nat {
    if x == y then 0 else 1
  }

  /** The recursive edit distance. */
  function Dist(a: seq<u8>, b: seq<u8>): nat
    decreases |a| + |b|
  {
    if a == [] then |b|
    else if b == [] then |a|
    else Min(Min(Dist(Front(a), b) + 1, Dist(a, Front(b)) + 1), Dist(Front(a), Front(b)) + Cost(Last(a), Last(b)))
  }

  // ---------- edit scripts ----------

  datatype Edit = Keep | Replace(c: u8) | Insert(c: u8) | Delete

  function Price(script: seq<Edit>): nat {
    if script == [] then 0
    else Price(script[..|script| - 1]) + if script[|script| - 1].Keep? then 0 else 1
  }

  /** What a script makes of `a`; None if it does not fit. */
  function Edited(script: seq<Edit>, a: seq<u8>): Option<seq<u8>> {
    if script == [] then (if a == [] then Some([]) else None)
    else
      var rest, e := script[..|script| - 1], script[|script| - 1];
      if e.Insert? then Then(Edited(rest, a), [e.c])
      else if a == [] then None
      else if e.Delete? then Edited(rest, Front(a))
      else Then(Edited(rest, Front(a)), [if e.Keep? then Last(a) else e.c])
  }

  function Then(r: Option<seq<u8>>, t: seq<u8>): Option<seq<u8>> {
    if r.None? then None else Some(r.value + t)
  }

  lemma {:induction false} NoScriptCheaper(script: seq<Edit>, a: seq<u8>)
    requires Edited(script, a).Some?
    ensures Dist(a, Edited(script, a).value) <= Price(script)
    decreases |script|
  {
    if script != [] {
      var rest, e := script[..|script| - 1], script[|script| - 1];
      var b := Edited(script, a).value;
      if e.Insert? {
        NoScriptCheaper(rest, a);
        assert Front(b) == Edited(rest, a).value;
        DropRight(a, b);
      } else if e.Delete? {
        NoScriptCheaper(rest, Front(a));
        DropLeft(a, b);
      } else {
        NoScriptCheaper(rest, Front(a));
        assert Front(b) == Edited(rest, Front(a)).value;
      }
    }
  }

  lemma DropLeft(a: seq<u8>, b: seq<u8>)
    requires a != []
    ensures Dist(a, b) <= Dist(Front(a), b) + 1
  {
  }

  lemma DropRight(a: seq<u8>, b: seq<u8>)
    requires b != []
    ensures Dist(a, b) <= Dist(a, Front(b)) + 1
  {
  }

  lemma Appended(rest: seq<Edit>, e: Edit)
    ensures var s := rest + [e];
            s[..|s| - 1] == rest && s[|s| - 1] == e && Price(s) == Price(rest) + (if e.Keep? then 0 else 1)
  {
    assert (rest + [e])[..|rest|] == rest;
  }

  /** A cheapest script. */
  lemma {:induction false} BestScript(a: seq<u8>, b: seq<u8>) returns (s: seq<Edit>)
    ensures Edited(s, a) == Some(b) && Price(s) == Dist(a, b)
    decreases |a| + |b|
  {
    if a == [] && b == [] {
      return [];
    }
    var rest, e;
    if a != [] && (b == [] || Dist(a, b) == Dist(Front(a), b) + 1) {
      e := Delete;
      rest := BestScript(Front(a), b);
    } else if a == [] || Dist(a, b) == Dist(a, Front(b)) + 1 {
      e := Insert(Last(b));
      rest := BestScript(a, Front(b));
    } else {
      e := if Last(a) == Last(b) then Keep else Replace(Last(b));
      rest := BestScript(Front(a), Front(b));
    }
    Appended(rest, e);
    assert b != [] ==> Front(b) + [Last(b)] == b;
    s := rest + [e];
  }

  /** The distance is the least price of a script from `a` to `b`. */
  lemma DistIsLeastPrice(a: seq<u8>, b: seq<u8>)
    ensures exists s {:trigger Edited(s, a)} :: Edited(s, a) == Some(b) && Price(s) == Dist(a, b)
    ensures forall s {:trigger Edited(s, a)} | Edited(s, a) == Some(b) :: Price(s) >= Dist(a, b)
  {
    var best := BestScript(a, b);
    forall s | Edited(s, a) == Some(b)
      ensures Price(s) >= Dist(a, b)
    {
      NoScriptCheaper(s, a);
    }
  }

  // ---------- a metric ----------

  lemma {:induction false} Symmetric(a: seq<u8>, b: seq<u8>)
    ensures Dist(a, b) == Dist(b, a)
    decreases |a| + |b|
  {
    if a != [] && b != [] {
      Symmetric(Front(a), b);
      Symmetric(a, Front(b));
      Symmetric(Front(a), Front(b));
    }
  }

  lemma {:induction false} ZeroIffEqual(a: seq<u8>, b: seq<u8>)
    ensures Dist(a, b) == 0 <==> a == b
    decreases |a|
  {
    if a != [] && b != [] {
      ZeroIffEqual(Front(a), Front(b));
      assert a == Front(a) + [Last(a)] && b == Front(b) + [Last(b)];
    }
  }

  lemma {:induction false} LengthGap(a: seq<u8>, b: seq<u8>)
    ensures |a| <= Dist(a, b) + |b| && |b| <= Dist(a, b) + |a|
    decreases |a| + |b|
  {
    if a != [] && b != [] {
      LengthGap(Front(a), b);
      LengthGap(a, Front(b));
      LengthGap(Front(a), Front(b));
    }
  }

  lemma {:induction false} AtMostSum(a: seq<u8>, b: seq<u8>)
    ensures Dist(a, b) <= |a| + |b|
    decreases |a|
  {
    if a != [] {
      AtMostSum(Front(a), b);
      DropLeft(a, b);
    }
  }

  lemma {:induction false} Triangle(a: seq<u8>, b: seq<u8>, c: seq<u8>)
    ensures Dist(a, c) <= Dist(a, b) + Dist(b, c)
    decreases |a| + |b| + |c|
  {
    if a == [] || c == [] {
      LengthGap(b, c);
      LengthGap(a, b);
    } else if b == [] {
      AtMostSum(a, c);
    } else if Dist(a, b) == Dist(Front(a), b) + 1 {
      Triangle(Front(a), b, c);
    } else if Dist(b, c) == Dist(b, Front(c)) + 1 {
      Triangle(a, b, Front(c));
    } else {
      TriangleThrough(a, b, c);
    }
  }

  /** Neither step touches only an end of the path: both go through the last byte of `b`. */
  lemma {:induction false} TriangleThrough(a: seq<u8>, b: seq<u8>, c: seq<u8>)
    requires a != [] && b != [] && c != []
    requires Dist(a, b) != Dist(Front(a), b) + 1 && Dist(b, c) != Dist(b, Front(c)) + 1
    ensures Dist(a, c) <= Dist(a, b) + Dist(b, c)
    decreases |a| + |b| + |c|, 0
  {
    var a', b', c' := Front(a), Front(b), Front(c);
    if Dist(a, b) == Dist(a, b') + 1 {
      Triangle(a, b', c);
      Triangle(a, b', c');
    } else {
      Triangle(a', b', c);
      Triangle(a', b', c');
    }
  }

  // ---------- the computation ----------

  method LevenshteinDistance(a: seq<u8>, b: seq<u8>) returns (d: nat)
    ensures d == Dist(a, b)
  {
    if |a| == 0 {
      return |b|;
    }
    if |b| == 0 {
      return |a|;
    }
    var prev := new nat[|b| + 1](j => j);
    var curr := new nat[|b| + 1](_ => 0);
    for i := 1 to |a| + 1
      invariant prev != curr && prev.Length == curr.Length == |b| + 1
      invariant fresh(prev) && fresh(curr)
      invariant forall j {:trigger prev[j]} | 0 <= j <= |b| :: prev[j] == Dist(a[..i - 1], b[..j])
    {
      FillRow(prev, curr, a, b, i);
      prev, curr := curr, prev;
    }
    d := prev[|b|];
    assert a[..|a|] == a && b[..|b|] == b;
  }

  /** One row from the row above it. */
  method FillRow(prev: array<nat>, curr: array<nat>, a: seq<u8>, b: seq<u8>, i: nat)
    requires prev != curr && prev.Length == curr.Length == |b| + 1 && 1 <= i <= |a|
    requires forall j {:trigger prev[j]} | 0 <= j <= |b| :: prev[j] == Dist(a[..i - 1], b[..j])
    modifies curr
    ensures forall j {:trigger curr[j]} | 0 <= j <= |b| :: curr[j] == Dist(a[..i], b[..j])
  {
    curr[0] := i;
    for j := 1 to |b| + 1
      invariant forall k {:trigger curr[k]} | 0 <= k < j :: curr[k] == Dist(a[..i], b[..k])
    {
      var cost := if a[i - 1] == b[j - 1] then 0 else 1;
      assert Front(a[..i]) == a[..i - 1] && Front(b[..j]) == b[..j - 1];
      curr[j] := Min(Min(prev[j] + 1, curr[j - 1] + 1), prev[j - 1] + cost);
    }
  }

  /** The first command of least distance, if that is below 4. */
  ghost predicate FirstClosest(cmd: seq<u8>, commands: seq<seq<u8>>, k: nat)
    requires k < |commands|
  {
    && (forall j {:trigger commands[j]} | 0 <= j < |commands| :: Dist(cmd, commands[k]) <= Dist(cmd, commands[j]))
    && (forall j {:trigger commands[j]} | 0 <= j < k :: Dist(cmd, commands[k]) < Dist(cmd, commands[j]))
  }

  method FindSimilarCommand(cmd: seq<u8>, commands: seq<seq<u8>>) returns (best: Option<seq<u8>>)
    ensures best.None? <==> forall j {:trigger commands[j]} | 0 <= j < |commands| :: Dist(cmd, commands[j]) >= 4
    ensures best.Some? ==>
              exists k {:trigger commands[k]} ::
                && 0 <= k < |commands| && commands[k] == best.value
                && Dist(cmd, commands[k]) < 4 && FirstClosest(cmd, commands, k)
  {
    best := None;
    var bestDist := 4;
    ghost var k := 0;
    for i := 0 to |commands|
      invariant bestDist <= 4
      invariant forall j {:trigger commands[j]} | 0 <= j < i :: bestDist <= Dist(cmd, commands[j])
      invariant best.None? ==> bestDist == 4
      invariant best.Some? ==> 0 <= k < i && commands[k] == best.value && Dist(cmd, commands[k]) == bestDist < 4
      invariant best.Some? ==> forall j {:trigger commands[j]} | 0 <= j < k :: bestDist < Dist(cmd, commands[j])
    {
      var d := LevenshteinDistance(cmd, commands[i]);
      if d < bestDist {
        bestDist := d;
        best := Some(commands[i]);
        k := i;
      }
    }
    assert best.Some? ==> FirstClosest(cmd, commands, k);
  }
}
