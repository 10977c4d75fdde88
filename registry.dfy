/**
 * The font registry as a value: a map from the resolved face name to the entry that
 * owns the font handle and the metrics captured when the face was first registered.
 * InsertOrReuse is one successful registration; RegisterAll is a run of them, and the
 * lemmas state what such runs keep: existing entries never change, the first font
 * registered under a face is the one kept, and every later registration of that face
 * leaves its entry as it is.
 */
module Registry {
  import opened Gdi

  datatype FontEntry = FontEntry(fontHandle: Hfont, metricBuf: seq<byte>)

  type Table = map<string, FontEntry>

  /**
   * Register-or-reuse: the face keeps the entry it already has, or gets `entry`
   * when it is new; no other key is added or changed.
   */
  function InsertOrReuse(reg: Table, face: string, entry: FontEntry): (r: Table)
    ensures face in r
    ensures r[face] == if face in reg then reg[face] else entry
    ensures r.Keys == reg.Keys + {face}
    ensures forall k | k in reg :: r[k] == reg[k]
  {
    if face in reg then reg else reg[face := entry]
  }

  /** One successful registration: the face resolved from the captured metrics and the new entry. */
  datatype Registration = Registration(face: string, entry: FontEntry)

  /** The registry after a run of registrations, in order. */
  function RegisterAll(reg: Table, steps: seq<Registration>): Table
    decreases |steps|
  {
    if steps == [] then reg
    else RegisterAll(InsertOrReuse(reg, steps[0].face, steps[0].entry), steps[1..])
  }

  /** The number of registrations in a run that found their face already present. */
  function FoundPresent(reg: Table, steps: seq<Registration>): nat
    decreases |steps|
  {
    if steps == [] then 0
    else (if steps[0].face in reg then 1 else 0)
         + FoundPresent(InsertOrReuse(reg, steps[0].face, steps[0].entry), steps[1..])
  }

  /** The faces a run of registrations resolved to. */
  function Faces(steps: seq<Registration>): set<string>
  {
    set i | 0 <= i < |steps| :: steps[i].face
  }

  /** A registration never changes nor removes an entry that is already there. */
  lemma {:induction false} RegisterAllKeepsEntries(reg: Table, steps: seq<Registration>)
    ensures forall k | k in reg :: k in RegisterAll(reg, steps) && RegisterAll(reg, steps)[k] == reg[k]
    decreases |steps|
  {
    if steps != [] {
      RegisterAllKeepsEntries(InsertOrReuse(reg, steps[0].face, steps[0].entry), steps[1..]);
    }
  }

  /** After a run, the registered faces are the ones before it and the ones it resolved to. */
  lemma {:induction false} RegisterAllKeys(reg: Table, steps: seq<Registration>)
    ensures RegisterAll(reg, steps).Keys == reg.Keys + Faces(steps)
    decreases |steps|
  {
    if steps != [] {
      RegisterAllKeys(InsertOrReuse(reg, steps[0].face, steps[0].entry), steps[1..]);
      assert Faces(steps) == {steps[0].face} + Faces(steps[1..]) by {
        forall f | f in Faces(steps) ensures f in {steps[0].face} + Faces(steps[1..]) {
          var i :| 0 <= i < |steps| && steps[i].face == f;
          if i > 0 {
            assert steps[1..][i - 1].face == f;
          }
        }
        forall f | f in Faces(steps[1..]) ensures f in Faces(steps) {
          var i :| 0 <= i < |steps[1..]| && steps[1..][i].face == f;
          assert steps[i + 1].face == f;
        }
      }
    }
  }

  /**
   * The first registration of a new face decides its entry for good: every later
   * registration of the same face leaves it (and so returns the same entry).
   */
  lemma {:induction false} FirstRegistrationWins(reg: Table, steps: seq<Registration>, i: nat)
    requires i < |steps|
    requires steps[i].face !in reg
    requires forall j | 0 <= j < i :: steps[j].face != steps[i].face
    ensures steps[i].face in RegisterAll(reg, steps)
    ensures RegisterAll(reg, steps)[steps[i].face] == steps[i].entry
    decreases |steps|
  {
    var next := InsertOrReuse(reg, steps[0].face, steps[0].entry);
    if i == 0 {
      RegisterAllKeepsEntries(next, steps[1..]);
    } else {
      assert steps[1..][i - 1] == steps[i];
      FirstRegistrationWins(next, steps[1..], i - 1);
    }
  }

  /**
   * Each registration in a run either adds one key or finds its face present: the keys
   * a run adds plus the registrations that found their face number the registrations.
   */
  lemma {:induction false} AddedOrFound(reg: Table, steps: seq<Registration>)
    ensures |RegisterAll(reg, steps)| + FoundPresent(reg, steps) == |reg| + |steps|
    decreases |steps|
  {
    if steps != [] {
      var next := InsertOrReuse(reg, steps[0].face, steps[0].entry);
      if steps[0].face !in reg {
        assert next.Keys == reg.Keys + {steps[0].face};
        assert |next.Keys| == |reg.Keys| + 1;
      }
      AddedOrFound(next, steps[1..]);
    }
  }

  /** Registering the same face twice gives one key and the first entry. */
  lemma RegisterTwiceSameEntry(reg: Table, face: string, first: FontEntry, second: FontEntry)
    ensures var once := InsertOrReuse(reg, face, first);
            InsertOrReuse(once, face, second) == once && once[face] == (if face in reg then reg[face] else first)
    ensures |InsertOrReuse(InsertOrReuse(reg, face, first), face, second)| <= |reg| + 1
  {
  }
}
