// The forward links of the skip list of src/base/skip_list.cc. A list is the sequence of
// its nodes, the header first; every node has a level and a link for every level up to it.
module SkipChains {

  type Ref = nat

  const NULL: Ref := 0
  const LEVEL_MAX := 8

  type Links = map<Ref, seq<Ref>>
  type Levels = map<Ref, nat>

  ghost function Plus(s: seq<Ref>, at: nat, n: Ref): seq<Ref>
    requires at <= |s|
  {
    s[..at] + [n] + s[at..]
  }

  ghost function Minus(s: seq<Ref>, at: nat): seq<Ref>
    requires at < |s|
  {
    s[..at] + s[at + 1..]
  }

  ghost predicate Known(level: Levels, s: seq<Ref>) {
    forall i :: 0 <= i < |s| ==> s[i] in level && s[i] != NULL
  }

  function SetLink(m: Links, x: Ref, l: nat, v: Ref): Links
    requires x in m && l < |m[x]|
  {
    var forward: seq<Ref> := m[x][l := v];
    m[x := forward]
  }

  // The first node of `s` that is on level `l`.
  ghost function NextIn(level: Levels, s: seq<Ref>, l: nat): Ref
    requires Known(level, s)
  {
    if s == [] then NULL
    else if level[s[0]] >= l then s[0]
    else NextIn(level, s[1..], l)
  }

  lemma {:induction false} NextInConcat(level: Levels, a: seq<Ref>, b: seq<Ref>, l: nat)
    requires Known(level, a) && Known(level, b)
    ensures NextIn(level, a + b, l) == if NextIn(level, a, l) != NULL then NextIn(level, a, l) else NextIn(level, b, l)
  {
    if a == [] {
      assert a + b == b;
    } else {
      assert (a + b)[1..] == a[1..] + b;
      NextInConcat(level, a[1..], b, l);
    }
  }

  lemma NextInOne(level: Levels, n: Ref, l: nat)
    requires n in level && n != NULL
    ensures NextIn(level, [n], l) == if level[n] >= l then n else NULL
  {
    assert [n][1..] == [];
  }

  lemma {:induction false} NextInNone(level: Levels, s: seq<Ref>, l: nat)
    requires Known(level, s)
    ensures NextIn(level, s, l) == NULL <==> forall i :: 0 <= i < |s| ==> level[s[i]] < l
  {
    if s != [] {
      NextInNone(level, s[1..], l);
    }
  }

  lemma {:induction false} NextInIndex(level: Levels, s: seq<Ref>, l: nat) returns (j: nat)
    requires Known(level, s)
    requires NextIn(level, s, l) != NULL
    ensures j < |s| && s[j] == NextIn(level, s, l) && level[s[j]] >= l
    ensures NextIn(level, s[..j], l) == NULL
  {
    if level[s[0]] >= l {
      j := 0;
    } else {
      j := NextInIndex(level, s[1..], l);
      assert s[..j + 1] == [s[0]] + s[1..][..j];
      j := j + 1;
    }
  }

  lemma {:induction false} NextInAgree(level: Levels, level': Levels, s: seq<Ref>, l: nat)
    requires Known(level, s) && Known(level', s) && forall i :: 0 <= i < |s| ==> level[s[i]] == level'[s[i]]
    ensures NextIn(level, s, l) == NextIn(level', s, l)
  {
    if s != [] {
      NextInAgree(level, level', s[1..], l);
    }
  }

  // Every node links, on each of its levels, to the next node of that level.
  ghost predicate Chained(m: Links, level: Levels, s: seq<Ref>) {
    && Formed(m, level, s)
    && (forall i, l :: 0 <= i < |s| && 0 <= l <= level[s[i]] ==> m[s[i]][l] == NextIn(level, s[i + 1..], l))
  }

  ghost predicate Formed(m: Links, level: Levels, s: seq<Ref>) {
    && Known(level, s)
    && (forall i :: 0 <= i < |s| ==> s[i] in m && level[s[i]] <= LEVEL_MAX && |m[s[i]]| == level[s[i]] + 1)
    && (forall i, j :: 0 <= i < j < |s| ==> s[i] != s[j])
  }

  // The chain of one level: the nodes that are met on the way along its links.
  ghost predicate Chain(m: Links, from: Ref, l: nat, s: seq<Ref>)
    decreases s
  {
    from in m && l < |m[from]|
    && if s == [] then m[from][l] == NULL else m[from][l] == s[0] && Chain(m, s[0], l, s[1..])
  }

  ghost function AtLeast(level: Levels, s: seq<Ref>, l: nat): seq<Ref>
    requires Known(level, s)
  {
    if s == [] then []
    else (if level[s[0]] >= l then [s[0]] else []) + AtLeast(level, s[1..], l)
  }

  lemma {:induction false} AtLeastNext(level: Levels, s: seq<Ref>, l: nat)
    requires Known(level, s)
    ensures AtLeast(level, s, l) == [] <==> NextIn(level, s, l) == NULL
    ensures AtLeast(level, s, l) != [] ==> AtLeast(level, s, l)[0] == NextIn(level, s, l)
  {
    if s != [] {
      AtLeastNext(level, s[1..], l);
    }
  }

  lemma {:induction false} AtLeastSkip(level: Levels, a: seq<Ref>, b: seq<Ref>, l: nat)
    requires Known(level, a) && Known(level, b)
    requires NextIn(level, a, l) == NULL
    ensures AtLeast(level, a + b, l) == AtLeast(level, b, l)
  {
    if a == [] {
      assert a + b == b;
    } else {
      assert (a + b)[1..] == a[1..] + b;
      AtLeastSkip(level, a[1..], b, l);
    }
  }

  lemma AtLeastSplit(level: Levels, s: seq<Ref>, j: nat, l: nat)
    requires Known(level, s) && j < |s| && level[s[j]] >= l && NextIn(level, s[..j], l) == NULL
    ensures AtLeast(level, s, l) == [s[j]] + AtLeast(level, s[j + 1..], l)
  {
    assert s == s[..j] + s[j..];
    AtLeastSkip(level, s[..j], s[j..], l);
    assert s[j..][1..] == s[j + 1..];
  }

  // Chain `l` behind a node is exactly the subsequence of the nodes of level `l` or more.
  lemma {:induction false} ChainExact(m: Links, level: Levels, s: seq<Ref>, i: nat, l: nat)
    requires Chained(m, level, s) && i < |s| && l <= level[s[i]]
    ensures Chain(m, s[i], l, AtLeast(level, s[i + 1..], l))
    decreases |s| - i
  {
    var rest := s[i + 1..];
    assert m[s[i]][l] == NextIn(level, rest, l);
    AtLeastNext(level, rest, l);
    if NextIn(level, rest, l) != NULL {
      var j := NextInIndex(level, rest, l);
      AtLeastSplit(level, rest, j, l);
      assert rest[j + 1..] == s[i + 1 + j + 1..];
      ChainExact(m, level, s, i + 1 + j, l);
    }
  }

  // The last node of level `l` in `s[..pos + 1]`.
  ghost predicate LastAt(level: Levels, s: seq<Ref>, pos: nat, l: nat, u: nat)
    requires Known(level, s)
  {
    u <= pos < |s| && level[s[u]] >= l && NextIn(level, s[u + 1..pos + 1], l) == NULL
  }

  lemma LastUnique(m: Links, level: Levels, s: seq<Ref>, pos: nat, l: nat, u: nat, i: nat)
    requires Formed(m, level, s) && LastAt(level, s, pos, l, u)
    requires i <= pos && level[s[i]] >= l
    ensures i == u <==> NextIn(level, s[i + 1..pos + 1], l) == NULL
    ensures i <= u
  {
    NextInNone(level, s[i + 1..pos + 1], l);
    NextInNone(level, s[u + 1..pos + 1], l);
    assert i < u ==> s[i + 1..pos + 1][u - i - 1] == s[u];
    forall k | u < k <= pos ensures level[s[k]] < l {
      assert s[u + 1..pos + 1][k - u - 1] == s[k];
    }
  }

  lemma PastLast(m: Links, level: Levels, s: seq<Ref>, pos: nat, l: nat, u: nat)
    requires Chained(m, level, s) && LastAt(level, s, pos, l, u)
    ensures m[s[u]][l] == NextIn(level, s[pos + 1..], l)
  {
    assert s[u + 1..] == s[u + 1..pos + 1] + s[pos + 1..];
    NextInConcat(level, s[u + 1..pos + 1], s[pos + 1..], l);
  }

  // Insertion of `n` behind position `pos`, done below level `top`

  ghost predicate SplicedIn(m: Links, m': Links, level: Levels, s: seq<Ref>, pos: nat, n: Ref, u: seq<nat>, top: nat)
    requires Formed(m, level, s) && pos < |s|
  {
    && n in m' && n in level && |m'[n]| == level[n] + 1 && level[n] <= LEVEL_MAX && |u| == LEVEL_MAX + 1
      && top <= level[n] + 1
    && (forall l :: 0 <= l <= level[n] ==> LastAt(level, s, pos, l, u[l]))
    && (forall l :: 0 <= l < top ==> m'[n][l] == NextIn(level, s[pos + 1..], l))
    && (forall i :: 0 <= i < |s| ==> s[i] in m' && |m'[s[i]]| == |m[s[i]]|)
    && (forall i, l {:trigger m'[s[i]][l]} :: 0 <= i <= pos && 0 <= l <= level[s[i]] ==> m'[s[i]][l] == if l < top
      && i == u[l] then n else m[s[i]][l])
    && (forall i :: pos < i < |s| ==> m'[s[i]] == m[s[i]])
  }

  lemma SpliceInStep(m: Links, m': Links, level: Levels, s: seq<Ref>, pos: nat, n: Ref, u: seq<nat>, l: nat)
    requires Chained(m, level, s) && pos < |s| && n != NULL && n !in s && l < |u|
    requires SplicedIn(m, m', level, s, pos, n, u, l) && l <= level[n]
    ensures u[l] < |s| && l < |m'[n]| && s[u[l]] in m' && l < |m'[s[u[l]]]|
    ensures SplicedIn(m, SetLink(SetLink(m', n, l, m'[s[u[l]]][l]), s[u[l]], l, n), level, s, pos, n, u, l + 1)
  {
    assert LastAt(level, s, pos, l, u[l]);
    PastLast(m, level, s, pos, l, u[l]);
  }

  lemma SpliceIn(m: Links, m': Links, level: Levels, s: seq<Ref>, pos: nat, n: Ref, u: seq<nat>)
    requires Chained(m, level, s) && pos < |s| && n != NULL && n !in s && n in level
      && SplicedIn(m, m', level, s, pos, n, u, level[n] + 1)
    ensures Chained(m', level, Plus(s, pos + 1, n))
  {
    var s' := Plus(s, pos + 1, n);
    assert Formed(m', level, s');
    forall i, l | 0 <= i < |s'| && 0 <= l <= level[s'[i]] ensures m'[s'[i]][l] == NextIn(level, s'[i + 1..], l) {
      if i <= pos {
        SpliceInLow(m, m', level, s, pos, n, u, i, l);
      } else if i == pos + 1 {
        assert s'[i + 1..] == s[pos + 1..];
      } else {
        assert s'[i] == s[i - 1] && s'[i + 1..] == s[i..];
      }
    }
  }

  lemma SpliceInLow(m: Links, m': Links, level: Levels, s: seq<Ref>, pos: nat, n: Ref, u: seq<nat>, i: nat, l: nat)
    requires Chained(m, level, s) && pos < |s| && n != NULL && n !in s && n in level
      && SplicedIn(m, m', level, s, pos, n, u, level[n] + 1)
    requires i <= pos && l <= level[s[i]]
    ensures m'[s[i]][l] == NextIn(level, (s[..pos + 1] + [n] + s[pos + 1..])[i + 1..], l)
  {
    var a, b := s[i + 1..pos + 1], s[pos + 1..];
    assert (s[..pos + 1] + [n] + b)[i + 1..] == a + ([n] + b);
    assert s[i + 1..] == a + b;
    NextInConcat(level, a, [n] + b, l);
    NextInConcat(level, [n], b, l);
    NextInConcat(level, a, b, l);
    if l <= level[n] {
      LastUnique(m, level, s, pos, l, u[l], i);
    }
  }

  // Removal of the node behind position `pos`, done below level `top`

  ghost predicate SplicedOut(m: Links, m': Links, level: Levels, s: seq<Ref>, pos: nat, u: seq<nat>, top: nat)
    requires Formed(m, level, s) && pos + 1 < |s|
  {
    var n := s[pos + 1];
    && |u| == LEVEL_MAX + 1
    && (forall l :: 0 <= l <= level[n] ==> LastAt(level, s, pos, l, u[l]))
    && (forall i :: 0 <= i < |s| ==> s[i] in m' && |m'[s[i]]| == |m[s[i]]|)
    && (forall i, l {:trigger m'[s[i]][l]} :: 0 <= i <= pos && 0 <= l <= level[s[i]] ==>
          m'[s[i]][l] == if l < top && l <= level[n] && i == u[l] then m[n][l] else m[s[i]][l])
    && (forall i :: pos < i < |s| ==> m'[s[i]] == m[s[i]])
  }

  // The last node of a level links to the removed node just when that is on the level.
  lemma LinksToNext(m: Links, level: Levels, s: seq<Ref>, pos: nat, l: nat, u: nat)
    requires Chained(m, level, s) && pos + 1 < |s| && LastAt(level, s, pos, l, u)
    ensures m[s[u]][l] == s[pos + 1] <==> l <= level[s[pos + 1]]
  {
    PastLast(m, level, s, pos, l, u);
    var rest := s[pos + 1..];
    if rest[0] == NextIn(level, rest, l) {
      var j := NextInIndex(level, rest, l);
      assert rest[j] == s[pos + 1 + j];
    }
  }

  // A link that leads to `n` leads to where the link of `n` leads.
  function Bypass(m: Links, x: Ref, l: nat, n: Ref): Links
    requires x in m && l < |m[x]| && n in m && (m[x][l] == n ==> l < |m[n]|)
  {
    if m[x][l] == n then SetLink(m, x, l, m[n][l]) else m
  }

  lemma BypassCells(m: Links, x: Ref, l: nat, n: Ref)
    requires x in m && l < |m[x]| && n in m && (m[x][l] == n ==> l < |m[n]|)
    ensures var m' := Bypass(m, x, l, n);
      && m'.Keys == m.Keys && (forall y :: y in m && y != x ==> m'[y] == m[y])
      && |m'[x]| == |m[x]| && (forall j :: 0 <= j < |m[x]| && j != l ==> m'[x][j] == m[x][j])
      && m'[x][l] == if m[x][l] == n then m[n][l] else m[x][l]
  {
  }

  // One link, before and after the step.
  lemma SpliceOutCell(m: Links, m': Links, level: Levels, s: seq<Ref>, pos: nat, u: seq<nat>, l: nat, i: nat, j: nat)
    requires Chained(m, level, s) && pos + 1 < |s| && SplicedOut(m, m', level, s, pos, u, l) && l <= LEVEL_MAX
    requires LastAt(level, s, pos, l, u[l]) && i <= pos && j <= level[s[i]]
    requires s[u[l]] in m' && l < |m'[s[u[l]]]| && s[pos + 1] in m'
      && (m'[s[u[l]]][l] == s[pos + 1] ==> l < |m'[s[pos + 1]]|)
    requires m'[s[pos + 1]] == m[s[pos + 1]] && m'[s[u[l]]][l] == m[s[u[l]]][l]
    requires m[s[u[l]]][l] == s[pos + 1] <==> l <= level[s[pos + 1]]
    ensures Bypass(m', s[u[l]], l, s[pos + 1])[s[i]][j]
            == if j < l + 1 && j <= level[s[pos + 1]] && i == u[j] then m[s[pos + 1]][j] else m[s[i]][j]
  {
    BypassCells(m', s[u[l]], l, s[pos + 1]);
    assert i != u[l] ==> s[i] != s[u[l]];
  }

  lemma SpliceOutStep(m: Links, m': Links, level: Levels, s: seq<Ref>, pos: nat, u: seq<nat>, l: nat)
    requires Chained(m, level, s) && pos + 1 < |s| && SplicedOut(m, m', level, s, pos, u, l) && l <= LEVEL_MAX
    requires LastAt(level, s, pos, l, u[l])
    ensures s[u[l]] in m' && l < |m'[s[u[l]]]| && s[pos + 1] in m'
      && (m'[s[u[l]]][l] == s[pos + 1] ==> l < |m'[s[pos + 1]]|)
    ensures SplicedOut(m, Bypass(m', s[u[l]], l, s[pos + 1]), level, s, pos, u, l + 1)
  {
    LinksToNext(m, level, s, pos, l, u[l]);
    var n, x := s[pos + 1], s[u[l]];
    assert m'[n] == m[n] && m'[x][l] == m[x][l];
    BypassCells(m', x, l, n);
    forall i, j | 0 <= i <= pos && 0 <= j <= level[s[i]]
      ensures Bypass(m', x, l, n)[s[i]][j] == if j < l + 1 && j <= level[n] && i == u[j] then m[n][j] else m[s[i]][j]
    {
      SpliceOutCell(m, m', level, s, pos, u, l, i, j);
    }
  }

  lemma SpliceOut(m: Links, m': Links, level: Levels, s: seq<Ref>, pos: nat, u: seq<nat>, top: nat)
    requires Chained(m, level, s) && pos + 1 < |s| && SplicedOut(m, m', level, s, pos, u, top)
      && level[s[pos + 1]] < top
    ensures Chained(m' - {s[pos + 1]}, level, Minus(s, pos + 1))
  {
    var s', n := Minus(s, pos + 1), s[pos + 1];
    SpliceOutFormed(m, m', level, s, pos, u, top);
    forall i, l | 0 <= i < |s'| && 0 <= l <= level[s'[i]] ensures m'[s'[i]][l] == NextIn(level, s'[i + 1..], l) {
      if i <= pos {
        SpliceOutLow(m, m', level, s, pos, u, top, i, l);
      } else {
        assert s'[i] == s[i + 1] && s'[i + 1..] == s[i + 2..];
      }
    }
  }

  lemma SpliceOutFormed(m: Links, m': Links, level: Levels, s: seq<Ref>, pos: nat, u: seq<nat>, top: nat)
    requires Chained(m, level, s) && pos + 1 < |s| && SplicedOut(m, m', level, s, pos, u, top)
      && level[s[pos + 1]] < top
    ensures Formed(m' - {s[pos + 1]}, level, Minus(s, pos + 1))
  {
    var s' := Minus(s, pos + 1);
    assert forall i :: 0 <= i < |s'| ==> s'[i] == s[if i <= pos then i else i + 1];
  }

  lemma SpliceOutLow(m: Links, m': Links, level: Levels, s: seq<Ref>, pos: nat, u: seq<nat>, top: nat, i: nat, l: nat)
    requires Chained(m, level, s) && pos + 1 < |s| && SplicedOut(m, m', level, s, pos, u, top)
      && level[s[pos + 1]] < top
    requires i <= pos && l <= level[s[i]]
    ensures m'[s[i]][l] == NextIn(level, (s[..pos + 1] + s[pos + 2..])[i + 1..], l)
  {
    var n: Ref := s[pos + 1];
    var a, b := s[i + 1..pos + 1], s[pos + 2..];
    assert (s[..pos + 1] + b)[i + 1..] == a + b;
    assert s[i + 1..] == a + ([n] + b);
    NextInConcat(level, a, [n] + b, l);
    NextInConcat(level, [n], b, l);
    NextInConcat(level, a, b, l);
    assert m[s[i]][l] == NextIn(level, s[i + 1..], l);
    assert m'[s[i]][l] == if l < top && l <= level[n] && i == u[l] then m[n][l] else m[s[i]][l];
    NextInOne(level, n, l);
    if l <= level[n] {
      assert m[s[pos + 1]][l] == NextIn(level, s[pos + 1 + 1..], l);
      LastUnique(m, level, s, pos, l, u[l], i);
    }
  }

  // A new node is on nobody's mind yet.
  lemma ChainedFresh(m: Links, level: Levels, s: seq<Ref>, n: Ref, forward: seq<Ref>, at: nat)
    requires Chained(m, level, s) && n !in s
    ensures Chained(m[n := forward], level[n := at], s)
  {
    var m', level' := m[n := forward], level[n := at];
    assert Formed(m', level', s);
    forall i, l | 0 <= i < |s| && 0 <= l <= level'[s[i]] ensures m'[s[i]][l] == NextIn(level', s[i + 1..], l) {
      NextInAgree(level, level', s[i + 1..], l);
      assert m[s[i]][l] == NextIn(level, s[i + 1..], l);
    }
  }
}
