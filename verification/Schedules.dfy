/** Runs of the ledger built up one action at a time, and the stretches a sign request consists of. */
module Schedules {
  import opened Base
  import opened Ledger

  lemma ExecOne(s: State, act: Action)
    requires Shaped(s)
    ensures Exec(s, [act]) == Step(s, act)
  {
    assert [act][1..] == [];
    if Step(s, act).Some? {
      StepKeepsShape(s, act);
      assert Exec(Step(s, act).value, []) == Step(s, act);
    }
  }

  lemma {:induction false} ExecOn(s: State, acts: seq<Action>, act: Action)
    requires Shaped(s) && Exec(s, acts).Some?
    ensures Exec(s, acts + [act]) == Step(Exec(s, acts).value, act)
    decreases |acts|
  {
    if acts == [] {
      ExecOne(s, act);
      assert acts + [act] == [act];
    } else {
      assert (acts + [act])[0] == acts[0] && (acts + [act])[1..] == acts[1..] + [act];
      ExecOn(Step(s, acts[0]).value, acts[1..], act);
    }
  }

  /** One more action at the end of a run. */
  lemma Go(s0: State, acts: seq<Action>, s: State, act: Action) returns (acts': seq<Action>, t: State)
    requires Shaped(s0) && Exec(s0, acts) == Some(s) && Step(s, act).Some?
    ensures acts' == acts + [act] && Exec(s0, acts') == Some(t) && Step(s, act) == Some(t) && Shaped(t)
  {
    ExecOn(s0, acts, act);
    acts', t := acts + [act], Step(s, act).value;
  }

  /** From between requests to the point where the check has been passed. */
  lemma PassCheck(s0: State, acts: seq<Action>, s: State, w: nat) returns (acts': seq<Action>, t: State)
    requires Shaped(s0) && Exec(s0, acts) == Some(s) && w < |s.workers| && s.workers[w].phase == Serving
    requires s.cells[2 * s.workers[w].user] > 0
    ensures acts' == acts + [Request(w)] + [Advance(w)] && Exec(s0, acts') == Some(t)
    ensures t == Move(s, w, Loading)
  {
    var acts1, s1 := Go(s0, acts, s, Request(w));
    acts', t := Go(s0, acts1, s1, Advance(w));
  }

  /** The two accesses of the decrement, one after the other. */
  lemma DecrementAccesses(s: State, w: nat)
    requires Shaped(s) && w < |s.workers| && s.workers[w].phase == Loading
    ensures var k := s.workers[w];
            var s1 := Move(s, w, Storing(Pred(s.cells[2 * k.user])));
            && Shaped(s1) && Step(s, Advance(w)) == Some(s1)
            && Step(s1, Advance(w))
               == Some(s.(cells := s.cells[2 * k.user := Pred(s.cells[2 * k.user])],
                          taken := s.taken[k.user := s.taken[k.user] + 1],
                          workers := s.workers[w := k.(phase := LoadingC, spent := k.spent + 1)]))
  {
    var s1 := Move(s, w, Storing(Pred(s.cells[2 * s.workers[w].user])));
    assert s1.workers[w := s1.workers[w].(phase := LoadingC, spent := s1.workers[w].spent + 1)]
        == s.workers[w := s.workers[w].(phase := LoadingC, spent := s.workers[w].spent + 1)];
  }

  lemma Decrement(s0: State, acts: seq<Action>, s: State, w: nat) returns (acts': seq<Action>, t: State)
    requires Shaped(s0) && Exec(s0, acts) == Some(s) && w < |s.workers| && s.workers[w].phase == Loading
    ensures acts' == acts + [Advance(w)] + [Advance(w)] && Exec(s0, acts') == Some(t)
    ensures var k := s.workers[w];
            t == s.(cells := s.cells[2 * k.user := Pred(s.cells[2 * k.user])],
                    taken := s.taken[k.user := s.taken[k.user] + 1],
                    workers := s.workers[w := k.(phase := LoadingC, spent := k.spent + 1)])
  {
    DecrementAccesses(s, w);
    var acts1, s1 := Go(s0, acts, s, Advance(w));
    acts', t := Go(s0, acts1, s1, Advance(w));
  }

  lemma Increment(s0: State, acts: seq<Action>, s: State, w: nat) returns (acts': seq<Action>, t: State)
    requires Shaped(s0) && Exec(s0, acts) == Some(s) && w < |s.workers| && s.workers[w].phase == LoadingC
    ensures acts' == acts + [Advance(w)] + [Advance(w)] && Exec(s0, acts') == Some(t)
    ensures var c := 2 * s.workers[w].user + 1;
            t == Move(s.(cells := s.cells[c := Succ(s.cells[c])]), w, Waiting)
  {
    var acts1, s1 := Go(s0, acts, s, Advance(w));
    acts', t := Go(s0, acts1, s1, Advance(w));
  }

  /** The list is copied cell by cell; undisturbed, the copy is the list. */
  lemma {:induction false} Copy(s0: State, acts: seq<Action>, s: State, w: nat) returns (acts': seq<Action>, t: State)
    requires Shaped(s0) && Exec(s0, acts) == Some(s) && w < |s.workers|
    requires s.workers[w].phase.Copying? && s.workers[w].phase.copy <= s.cells
    ensures Exec(s0, acts') == Some(t) && ByOne(acts, acts', w)
    ensures t == Move(s, w, Copying(s.cells))
    decreases |s.cells| - |s.workers[w].phase.copy|
  {
    var copy := s.workers[w].phase.copy;
    if copy == s.cells {
      assert s.workers[w := s.workers[w]] == s.workers;
      return acts, s;
    }
    var acts1, s1 := CopyOne(s0, acts, s, w);
    acts', t := Copy(s0, acts1, s1, w);
    assert s1.workers[w := s1.workers[w].(phase := Copying(s.cells))] == t.workers;
  }

  lemma CopyOne(s0: State, acts: seq<Action>, s: State, w: nat) returns (acts': seq<Action>, t: State)
    requires Shaped(s0) && Exec(s0, acts) == Some(s) && w < |s.workers|
    requires s.workers[w].phase.Copying? && s.workers[w].phase.copy < s.cells
    ensures acts' == acts + [Advance(w)] && Exec(s0, acts') == Some(t)
    ensures t == Move(s, w, Copying(s.cells[..|s.workers[w].phase.copy| + 1]))
  {
    var copy := s.workers[w].phase.copy;
    assert copy + [s.cells[|copy|]] == s.cells[..|copy| + 1];
    acts', t := Go(s0, acts, s, Advance(w));
  }

  /** Everything a run gained is done by worker `w`. */
  ghost predicate ByOne(acts: seq<Action>, acts': seq<Action>, w: nat) {
    acts <= acts' && forall i :: |acts| <= i < |acts'| ==> acts'[i].w == w
  }

  lemma Open(s0: State, acts: seq<Action>, s: State, w: nat) returns (acts': seq<Action>, t: State)
    requires Shaped(s0) && Exec(s0, acts) == Some(s) && w < |s.workers|
    requires s.workers[w].phase == Waiting && s.holder == None
    ensures Exec(s0, acts') == Some(t) && ByOne(acts, acts', w)
    ensures t == Move(s.(holder := Some(w), file := None), w, Copying([]))
  {
    var acts1, s1 := Go(s0, acts, s, Advance(w));
    acts', t := Go(s0, acts1, s1, Advance(w));
  }

  lemma Close(s0: State, acts: seq<Action>, s: State, w: nat) returns (acts': seq<Action>, t: State)
    requires Shaped(s0) && Exec(s0, acts) == Some(s) && w < |s.workers|
    requires s.workers[w].phase == Copying(s.cells)
    ensures Exec(s0, acts') == Some(t) && ByOne(acts, acts', w)
    ensures t == Move(s.(holder := None, file := Some(s.cells)), w, Signing)
  {
    var acts1, s1 := Go(s0, acts, s, Advance(w));
    acts', t := Go(s0, acts1, s1, Advance(w));
  }

  /** With the mutex free, a worker alone saves what memory holds and comes to sign. */
  lemma Save(s0: State, acts: seq<Action>, s: State, w: nat) returns (acts': seq<Action>, t: State)
    requires Shaped(s0) && Exec(s0, acts) == Some(s) && w < |s.workers|
    requires s.workers[w].phase == Waiting && s.holder == None
    ensures Exec(s0, acts') == Some(t) && ByOne(acts, acts', w)
    ensures t == Move(s.(file := Some(s.cells)), w, Signing)
  {
    var acts1, s1 := Open(s0, acts, s, w);
    var acts2, s2 := Copy(s0, acts1, s1, w);
    acts', t := Close(s0, acts2, s2, w);
  }

  /** The state after worker `w` alone took one credit of its user and saved. */
  function Taken(s: State, w: nat): State
    requires Shaped(s) && w < |s.workers| && s.workers[w].phase != Idle
  {
    var k := s.workers[w];
    var r, c := 2 * k.user, 2 * k.user + 1;
    var cells := s.cells[r := Pred(s.cells[r])][c := Succ(s.cells[c])];
    s.(cells := cells, file := Some(cells), taken := s.taken[k.user := s.taken[k.user] + 1],
       workers := s.workers[w := k.(phase := Signing, spent := k.spent + 1)])
  }

  /** A whole request up to the signature, of a worker that nobody disturbs and that finds a credit. */
  lemma TakeAlone(s0: State, acts: seq<Action>, s: State, w: nat) returns (acts': seq<Action>, t: State)
    requires Shaped(s0) && Exec(s0, acts) == Some(s) && w < |s.workers|
    requires s.workers[w].phase == Serving && s.holder == None && s.cells[2 * s.workers[w].user] > 0
    ensures Exec(s0, acts') == Some(t) && ByOne(acts, acts', w)
    ensures t == Taken(s, w)
  {
    var acts1, s1 := PassCheck(s0, acts, s, w);
    var acts2, s2 := TakeChecked(s0, acts1, s1, w);
    acts', t := Save(s0, acts2, s2, w);
    assert t.workers == Taken(s, w).workers;
  }

  lemma TakeChecked(s0: State, acts: seq<Action>, s: State, w: nat) returns (acts': seq<Action>, t: State)
    requires Shaped(s0) && Exec(s0, acts) == Some(s) && w < |s.workers| && s.workers[w].phase == Loading
    ensures Exec(s0, acts') == Some(t) && ByOne(acts, acts', w)
    ensures t == Move(Taken(s, w).(file := s.file), w, Waiting)
  {
    var acts1, s1 := Decrement(s0, acts, s, w);
    acts', t := Increment(s0, acts1, s1, w);
    assert t.workers == Move(Taken(s, w), w, Waiting).workers;
  }
}
