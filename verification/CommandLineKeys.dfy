/** Dotted keys name places one to one, so a store remembers the last write to each place. */
module CommandLineKeys {
  import opened Options
  import opened CommandLine

  predicate DotFree(s: string) {
    forall i :: 0 <= i < |s| ==> s[i] != '.'
  }

  ghost predicate CleanPlace(p: Place) {
    p != [] && forall i :: 0 <= i < |p| ==> DotFree(p[i])
  }

  ghost predicate CleanLog(log: seq<Write>) {
    forall i :: 0 <= i < |log| ==> CleanPlace(log[i].place)
  }

  /** Behind the last dot there is only one thing. */
  lemma LastDot(a: string, b: string, c: string, d: string)
    requires DotFree(b) && DotFree(d) && a + "." + b == c + "." + d
    ensures a == c && b == d
  {
    var s, t := a + "." + b, c + "." + d;
    assert s[|a|] == '.' && t[|c|] == '.';
    if |a| < |c| {
      assert false;
    } else if |c| < |a| {
      assert false;
    }
    assert a == s[..|a|] && c == t[..|c|];
    assert b == s[|a| + 1..] && d == t[|c| + 1..];
  }

  lemma JoinHasDot(p: Place)
    requires |p| >= 2
    ensures !DotFree(Join(p))
  {
    var front := Join(p[..|p| - 1]);
    assert Join(p)[|front|] == '.';
  }

  lemma {:induction false} JoinInjective(p: Place, q: Place)
    requires CleanPlace(p) && CleanPlace(q) && Join(p) == Join(q)
    ensures p == q
    decreases |p|
  {
    if |p| == 1 {
      if |q| >= 2 {
        JoinHasDot(q);
        assert false;
      }
    } else if |q| == 1 {
      JoinHasDot(p);
      assert false;
    } else {
      var a, c := p[..|p| - 1], q[..|q| - 1];
      LastDot(Join(a), p[|p| - 1], Join(c), q[|q| - 1]);
      JoinInjective(a, c);
      assert p == a + [p[|p| - 1]] && q == c + [q[|q| - 1]];
    }
  }

  lemma {:induction false} AppliedConcat(values: Values, a: seq<Write>, b: seq<Write>)
    ensures Applied(values, a + b) == Applied(Applied(values, a), b)
    decreases |b|
  {
    if b == [] {
      assert a + b == a;
    } else {
      var log := a + b;
      assert log[..|log| - 1] == a + b[..|b| - 1];
      AppliedConcat(values, a, b[..|b| - 1]);
    }
  }

  lemma AppliedFirst(values: Values, w: Write, rest: seq<Write>)
    ensures Applied(values, [w] + rest) == Applied(values[Join(w.place) := w.value], rest)
  {
    AppliedConcat(values, [w], rest);
    assert [w][..0] == [];
    assert Applied(values, [w]) == values[Join(w.place) := w.value];
  }

  /** What the log last wrote to a place. */
  function LastWrite(log: seq<Write>, p: Place): Option<Value> {
    if log == [] then None
    else if log[|log| - 1].place == p then Some(log[|log| - 1].value)
    else LastWrite(log[..|log| - 1], p)
  }

  function Lookup(values: Values, key: string): Option<Value> {
    if key in values then Some(values[key]) else None
  }

  /** The store under the key of a place is the last write to that place. */
  lemma {:induction false} StoreRemembers(log: seq<Write>, p: Place)
    requires CleanLog(log) && CleanPlace(p)
    ensures Lookup(Applied(map[], log), Join(p)) == LastWrite(log, p)
    decreases |log|
  {
    if log != [] {
      var before, last := log[..|log| - 1], log[|log| - 1];
      StoreRemembers(before, p);
      if Join(last.place) == Join(p) {
        JoinInjective(last.place, p);
      }
    }
  }

  lemma {:induction false} LastWriteConcat(a: seq<Write>, b: seq<Write>, p: Place)
    ensures LastWrite(a + b, p) == if LastWrite(b, p).Some? then LastWrite(b, p) else LastWrite(a, p)
    decreases |b|
  {
    if b == [] {
      assert a + b == a;
    } else {
      assert (a + b)[..|a + b| - 1] == a + b[..|b| - 1];
      LastWriteConcat(a, b[..|b| - 1], p);
    }
  }

  ghost predicate Wrote(log: seq<Write>, p: Place) {
    exists i :: 0 <= i < |log| && log[i].place == p
  }

  lemma {:induction false} LastWriteOf(log: seq<Write>, p: Place)
    ensures LastWrite(log, p).Some? <==> Wrote(log, p)
    ensures LastWrite(log, p).Some? ==> Write(p, LastWrite(log, p).value) in log
    decreases |log|
  {
    if log != [] {
      var before, last := log[..|log| - 1], log[|log| - 1];
      LastWriteOf(before, p);
      assert log == before + [last];
      if Wrote(before, p) {
        var i :| 0 <= i < |before| && before[i].place == p;
        assert log[i].place == p;
      }
      if last.place == p {
        assert log[|log| - 1].place == p;
      }
      if i :| 0 <= i < |log| && log[i].place == p && i < |before| {
        assert before[i].place == p;
      }
    }
  }
}
