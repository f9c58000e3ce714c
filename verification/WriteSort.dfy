/** msp.py orders the files to program by repeated passes over the unsorted list. */
module WriteSort {

  datatype Write = Write(filename: string, start: int)

  predicate Named(w: Write) {
    w.filename != ""
  }

  predicate Sorted(s: seq<int>) {
    forall i, j :: 0 <= i < j < |s| ==> s[i] <= s[j]
  }

  // ----- step 1: the start sectors, sorted -----

  function Insert(x: int, s: seq<int>): (r: seq<int>)
    requires Sorted(s)
    ensures Sorted(r) && |r| == |s| + 1
    ensures forall k :: 0 <= k < |r| ==> r[k] == x || r[k] in s
  {
    var n := |s| - 1;
    if s == [] then [x]
    else if s[n] <= x then s + [x]
    else Insert(x, s[..n]) + [s[n]]
  }

  lemma {:induction false} InsertKeeps(x: int, s: seq<int>)
    requires Sorted(s)
    ensures multiset(Insert(x, s)) == multiset(s) + multiset{x}
  {
    var n := |s| - 1;
    if s != [] && s[n] > x {
      InsertKeeps(x, s[..n]);
      assert s == s[..n] + [s[n]];
    }
  }

  function Sort(s: seq<int>): (r: seq<int>)
    ensures Sorted(r) && |r| == |s|
  {
    if s == [] then [] else Insert(s[|s| - 1], Sort(s[..|s| - 1]))
  }

  lemma {:induction false} SortKeeps(s: seq<int>)
    ensures multiset(Sort(s)) == multiset(s)
  {
    if s != [] {
      var n := |s| - 1;
      SortKeeps(s[..n]);
      InsertKeeps(s[n], Sort(s[..n]));
      assert s == s[..n] + [s[n]];
    }
  }

  function Starts(ws: seq<Write>): seq<int> {
    if ws == [] then []
    else if Named(ws[|ws| - 1]) then Starts(ws[..|ws| - 1]) + [ws[|ws| - 1].start]
    else Starts(ws[..|ws| - 1])
  }

  function Files(ws: seq<Write>): seq<Write> {
    if ws == [] then []
    else if Named(ws[|ws| - 1]) then Files(ws[..|ws| - 1]) + [ws[|ws| - 1]]
    else Files(ws[..|ws| - 1])
  }

  /** The files are the writes with a file name, each as often as it occurs. */
  lemma {:induction false} FilesKeep(ws: seq<Write>, w: Write)
    ensures multiset(Files(ws))[w] == if w.filename != "" then multiset(ws)[w] else 0
  {
    if ws != [] {
      var n := |ws| - 1;
      FilesKeep(ws[..n], w);
      assert ws == ws[..n] + [ws[n]];
    }
  }

  // ----- what is still to be written -----

  ghost predicate IsOpen(ws: seq<Write>, taken: set<nat>, k: nat)
    requires k < |ws|
  {
    Named(ws[k]) && k !in taken
  }

  /** How many named writes among the first `k`, not in `taken`, start at `v`. */
  ghost function Open(ws: seq<Write>, taken: set<nat>, k: nat, v: int): nat
    requires k <= |ws|
  {
    if k == 0 then 0
    else Open(ws, taken, k - 1, v) + if IsOpen(ws, taken, k - 1) && ws[k - 1].start == v then 1 else 0
  }

  /** How many of them are equal to `w`. */
  ghost function OpenEqual(ws: seq<Write>, taken: set<nat>, k: nat, w: Write): nat
    requires k <= |ws|
  {
    if k == 0 then 0
    else OpenEqual(ws, taken, k - 1, w) + if IsOpen(ws, taken, k - 1) && ws[k - 1] == w then 1 else 0
  }

  lemma {:induction false} OpenAll(ws: seq<Write>, k: nat, v: int, w: Write)
    requires k <= |ws|
    ensures Open(ws, {}, k, v) == multiset(Starts(ws[..k]))[v]
    ensures OpenEqual(ws, {}, k, w) == multiset(Files(ws[..k]))[w]
    decreases k
  {
    if k > 0 {
      OpenAll(ws, k - 1, v, w);
      assert ws[..k][..k - 1] == ws[..k - 1];
    }
  }

  lemma {:induction false} OpenTake(ws: seq<Write>, taken: set<nat>, k: nat, i: nat, v: int, w: Write)
    requires k <= |ws| && i < |ws| && IsOpen(ws, taken, i)
    ensures Open(ws, taken, k, v) == Open(ws, taken + {i}, k, v) + if i < k && ws[i].start == v then 1 else 0
    ensures OpenEqual(ws, taken, k, w) == OpenEqual(ws, taken + {i}, k, w) + if i < k && ws[i] == w then 1 else 0
    decreases k
  {
    if k > 0 {
      OpenTake(ws, taken, k - 1, i, v, w);
    }
  }

  lemma {:induction false} OpenMember(ws: seq<Write>, taken: set<nat>, k: nat, v: int)
    requires k <= |ws| && Open(ws, taken, k, v) > 0
    ensures exists j :: 0 <= j < k && IsOpen(ws, taken, j) && ws[j].start == v
    decreases k
  {
    if !(IsOpen(ws, taken, k - 1) && ws[k - 1].start == v) {
      OpenMember(ws, taken, k - 1, v);
    }
  }

  lemma {:induction false} OpenNone(ws: seq<Write>, taken: set<nat>, k: nat, w: Write)
    requires k <= |ws|
    ensures OpenEqual(ws, taken, k, w) <= Open(ws, taken, k, w.start)
    decreases k
  {
    if k > 0 {
      OpenNone(ws, taken, k - 1, w);
    }
  }

  // ----- the cyclic scan -----

  /** The writes with start `v` already taken are those the scan has met since it began to look for `v`:
      from `since` up to the cursor in this pass, or, if it began in the pass before, from `since` to the end of
      that pass and from the beginning of this one. */
  ghost predicate Met(ws: seq<Write>, taken: set<nat>, v: int, since: nat, thisPass: bool, i: nat) {
    && (if thisPass then since <= i else i <= since <= |ws|)
    && forall k :: 0 <= k < |ws| && Named(ws[k]) && ws[k].start == v ==>
         (k in taken <==> if thisPass then since <= k < i else k < i || since <= k)
  }

  /** Everything named is either written or still open, and the open start sectors are those still wanted. */
  ghost predicate Balanced(ws: seq<Write>, wanted: seq<int>, out: seq<Write>, taken: set<nat>) {
    && (forall w :: multiset(out)[w] + OpenEqual(ws, taken, |ws|, w) == multiset(Files(ws))[w])
    && (forall v :: Open(ws, taken, |ws|, v) == multiset(wanted)[v])
  }

  lemma {:induction false} BalancedTake(ws: seq<Write>, wanted: seq<int>, out: seq<Write>, taken: set<nat>, i: nat)
    requires i < |ws| && IsOpen(ws, taken, i) && wanted != [] && wanted[0] == ws[i].start
    requires Balanced(ws, wanted, out, taken)
    ensures Balanced(ws, wanted[1..], out + [ws[i]], taken + {i})
  {
    assert wanted == [wanted[0]] + wanted[1..];
    forall w
      ensures multiset(out + [ws[i]])[w] + OpenEqual(ws, taken + {i}, |ws|, w) == multiset(Files(ws))[w]
    {
      OpenTake(ws, taken, |ws|, i, 0, w);
    }
    forall v
      ensures Open(ws, taken + {i}, |ws|, v) == multiset(wanted[1..])[v]
    {
      OpenTake(ws, taken, |ws|, i, v, ws[i]);
    }
  }

  lemma {:induction false} BalancedStart(ws: seq<Write>, ps: seq<int>)
    requires multiset(ps) == multiset(Starts(ws))
    ensures Balanced(ws, ps, [], {})
  {
    assert ws[..|ws|] == ws;
    forall w
      ensures multiset([])[w] + OpenEqual(ws, {}, |ws|, w) == multiset(Files(ws))[w]
    {
      OpenAll(ws, |ws|, 0, w);
    }
    forall v
      ensures Open(ws, {}, |ws|, v) == multiset(ps)[v]
    {
      OpenAll(ws, |ws|, v, Write("", 0));
    }
  }

  lemma {:induction false} BalancedEnd(ws: seq<Write>, out: seq<Write>, taken: set<nat>)
    requires Balanced(ws, [], out, taken)
    ensures multiset(out) == multiset(Files(ws))
  {
    forall w
      ensures multiset(out)[w] == multiset(Files(ws))[w]
    {
      OpenNone(ws, taken, |ws|, w);
    }
  }

  /** The state of the scan before it looks at write `i`. */
  ghost predicate Scan(ws: seq<Write>, ps: seq<int>, out: seq<Write>, taken: set<nat>, since: nat, thisPass: bool,
                       i: nat) {
    && i <= |ws| && |out| <= |ps|
    && (forall k :: 0 <= k < |out| ==> out[k].start == ps[k])
    && Balanced(ws, ps[|out|..], out, taken)
    && (|out| < |ps| ==>
          && Met(ws, taken, ps[|out|], since, thisPass, i)
          && forall k :: k in taken ==> k < |ws| && ws[k].start <= ps[|out|])
  }

  /** While something is still to be found, a scan that has gone full circle is impossible. */
  lemma {:induction false} NotFullCircle(ws: seq<Write>, ps: seq<int>, out: seq<Write>, taken: set<nat>, since: nat,
                                         thisPass: bool, i: nat)
    requires Scan(ws, ps, out, taken, since, thisPass, i) && |out| < |ps|
    ensures !thisPass ==> i < since
  {
    var v := ps[|out|];
    assert ps[|out|..][0] == v;
    assert Open(ws, taken, |ws|, v) == multiset(ps[|out|..])[v];
    OpenMember(ws, taken, |ws|, v);
  }

  /** Looking at write `i`. */
  lemma {:induction false} ScanStep(ws: seq<Write>, ps: seq<int>, out: seq<Write>, taken: set<nat>, since: nat,
                                    thisPass: bool, i: nat)
    returns (taken': set<nat>, since': nat, thisPass': bool)
    requires Scan(ws, ps, out, taken, since, thisPass, i) && |out| < |ps| && i < |ws| && Sorted(ps)
    ensures var hit := Named(ws[i]) && ws[i].start == ps[|out|];
            && Scan(ws, ps, if hit then out + [ws[i]] else out, taken', since', thisPass', i + 1)
            && (!hit ==> thisPass' == thisPass)
  {
    hide Balanced;
    NotFullCircle(ws, ps, out, taken, since, thisPass, i);
    taken', since', thisPass' := taken, since, thisPass;
    var v := ps[|out|];
    if Named(ws[i]) && ws[i].start == v {
      taken' := taken + {i};
      BalancedTake(ws, ps[|out|..], out, taken, i);
      assert ps[|out|..][1..] == ps[|out| + 1..];
      if |out| + 1 < |ps| && ps[|out| + 1] != v {
        since', thisPass' := i + 1, true;
      }
    }
  }

  lemma {:induction false} ScanStart(ws: seq<Write>, ps: seq<int>)
    requires multiset(ps) == multiset(Starts(ws))
    ensures Scan(ws, ps, [], {}, |ws|, false, 0)
  {
    hide Balanced;
    BalancedStart(ws, ps);
    assert ps[0..] == ps;
  }

  /** A pass that leaves something to be found found something itself; the next pass continues the search. */
  lemma {:induction false} PassEnd(ws: seq<Write>, ps: seq<int>, out: seq<Write>, taken: set<nat>, since: nat,
                                   thisPass: bool)
    requires Scan(ws, ps, out, taken, since, thisPass, |ws|) && |out| < |ps|
    ensures thisPass && Scan(ws, ps, out, taken, since, false, 0)
  {
    hide Balanced;
    NotFullCircle(ws, ps, out, taken, since, thisPass, |ws|);
  }

  lemma {:induction false} ScanEnd(ws: seq<Write>, ps: seq<int>, out: seq<Write>, taken: set<nat>, since: nat,
                                   thisPass: bool, i: nat)
    requires Scan(ws, ps, out, taken, since, thisPass, i) && |out| == |ps|
    ensures multiset(out) == multiset(Files(ws))
    ensures forall k :: 0 <= k < |out| ==> out[k].start == ps[k]
  {
    hide Balanced;
    assert ps[|out|..] == [];
    BalancedEnd(ws, out, taken);
  }

  /** msp.py step 2: the result has exactly the named writes, ordered by start sector. The loop always ends. */
  method SortWrites(ws: seq<Write>) returns (out: seq<Write>)
    ensures multiset(out) == multiset(Files(ws))
    ensures forall w :: multiset(out)[w] == if w.filename != "" then multiset(ws)[w] else 0
    ensures |out| == |Sort(Starts(ws))| && forall k :: 0 <= k < |out| ==> out[k].start == Sort(Starts(ws))[k]
    ensures forall i, j :: 0 <= i < j < |out| ==> out[i].start <= out[j].start
  {
    hide Scan, Sort, Files, Starts;
    var ps := Sort(Starts(ws));
    SortKeeps(Starts(ws));
    out := [];
    ghost var taken: set<nat>, since: nat, thisPass := {}, |ws|, false;
    ScanStart(ws, ps);
    while |out| < |ps|
      invariant |out| < |ps| ==> Scan(ws, ps, out, taken, since, thisPass, 0) && !thisPass
      invariant |out| <= |ps|
      invariant |out| == |ps| ==> exists i :: 0 <= i <= |ws| && Scan(ws, ps, out, taken, since, thisPass, i)
      decreases |ps| - |out|
    {
      ghost var before := |out|;
      var i := 0;
      while i < |ws| && |out| < |ps|
        invariant Scan(ws, ps, out, taken, since, thisPass, i)
        invariant i <= |ws| && before <= |out| <= |ps| && (|out| == before && |out| < |ps| ==> !thisPass)
        decreases |ws| - i
      {
        ghost var taken', since', thisPass' := ScanStep(ws, ps, out, taken, since, thisPass, i);
        if ws[i].filename != "" && ws[i].start == ps[|out|] {
          out := out + [ws[i]];
        }
        taken, since, thisPass := taken', since', thisPass';
        i := i + 1;
      }
      if |out| < |ps| {
        PassEnd(ws, ps, out, taken, since, thisPass);
        thisPass := false;
      }
    }
    ghost var i :| 0 <= i <= |ws| && Scan(ws, ps, out, taken, since, thisPass, i);
    ScanEnd(ws, ps, out, taken, since, thisPass, i);
    forall w
      ensures multiset(out)[w] == if w.filename != "" then multiset(ws)[w] else 0
    {
      FilesKeep(ws, w);
    }
  }
}
