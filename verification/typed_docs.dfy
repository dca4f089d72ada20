/** The catalog re-keying of `generateTypedDocs`: a list of native class
    records, each with its instances, folded into a two-level map from class
    key to instance key to instance. Reading the input file and writing the
    output file are not part of this model. */
module TypedDocs {
  import opened Wrappers
  import opened Text

  /** An instance record: its `ClassName` and its other properties, which
      the fold stores without looking at them. */
  datatype Instance = Instance(className: string, properties: map<string, string>)

  /** One input record: `{NativeClass, Classes}`. */
  datatype NativeType = NativeType(nativeClass: string, classes: seq<Instance>)

  type Docs = map<string, map<string, Instance>>

  /** Every key at both levels is alphanumeric. */
  predicate KeysAlnum(docs: Docs) {
    && (forall k :: k in docs ==> AllAlnum(k))
    && (forall k, ik :: k in docs && ik in docs[k] ==> AllAlnum(ik))
  }

  /** `s.split('.').at(-1)`: the text after the last `.`, or all of `s` when
      it has none. */
  function LastSegment(s: string): string
  {
    if s == [] then []
    else if s[|s| - 1] == '.' then []
    else LastSegment(s[..|s| - 1]) + [s[|s| - 1]]
  }

  /** The last segment is a dot-free suffix of `s` that is either all of `s`
      or directly preceded by a `.`; these three facts determine it. */
  lemma {:induction false} LastSegmentIsLastPiece(s: string)
    ensures var r := LastSegment(s);
            && '.' !in r
            && |r| <= |s| && r == s[|s| - |r|..]
            && (|r| < |s| ==> s[|s| - |r| - 1] == '.')
  {
    if s != [] && s[|s| - 1] != '.' {
      var prefix := s[..|s| - 1];
      LastSegmentIsLastPiece(prefix);
      var q := LastSegment(prefix);
      var r := q + [s[|s| - 1]];
      assert r == LastSegment(s);
      assert r == s[|s| - |r|..] by {
        assert s == prefix + [s[|s| - 1]];
        assert prefix[|prefix| - |q|..] == q;
      }
      assert |r| < |s| ==> s[|s| - |r| - 1] == '.' by {
        if |r| < |s| {
          assert s[|s| - |r| - 1] == prefix[|prefix| - |q| - 1];
        }
      }
    }
  }

  /** A name without a `.` is its own last segment. */
  lemma NoDotWholeSegment(s: string)
    requires '.' !in s
    ensures LastSegment(s) == s
  {
    LastSegmentIsLastPiece(s);
  }

  function ClassKey(t: NativeType): string
  {
    Normalize(LastSegment(t.nativeClass))
  }

  function InstanceKey(c: Instance): string
  {
    Normalize(c.className)
  }

  /** The inner loop: each instance stored under its key, later ones
      overwriting earlier ones. */
  function AddInstances(inner: map<string, Instance>, cs: seq<Instance>): map<string, Instance>
  {
    if cs == [] then inner
    else AddInstances(inner, cs[..|cs| - 1])[InstanceKey(cs[|cs| - 1]) := cs[|cs| - 1]]
  }

  /** One turn of the outer loop: `output[className] ??= {}` keeps the map
      already collected for a repeated class key, and the instances are added
      to it. */
  function Step(docs: Docs, t: NativeType): Docs
  {
    var inner := if ClassKey(t) in docs then docs[ClassKey(t)] else map[];
    docs[ClassKey(t) := AddInstances(inner, t.classes)]
  }

  /** The whole fold, starting from the empty `output`. */
  function Generate(types: seq<NativeType>): Docs
  {
    if types == [] then map[] else Step(Generate(types[..|types| - 1]), types[|types| - 1])
  }

  /** One write of the fold: an instance stored under a class and instance key. */
  datatype Write = Write(classKey: string, instanceKey: string, instance: Instance)

  /** The writes of the inner loop over `cs` under class key `k`. */
  function WritesFor(k: string, cs: seq<Instance>): (ws: seq<Write>)
    ensures |ws| == |cs|
    ensures forall i :: 0 <= i < |cs| ==> ws[i] == Write(k, InstanceKey(cs[i]), cs[i])
  {
    if cs == [] then [] else WritesFor(k, cs[..|cs| - 1]) + [Write(k, InstanceKey(cs[|cs| - 1]), cs[|cs| - 1])]
  }

  /** Every write of the fold, in the order it happens. */
  function Writes(types: seq<NativeType>): (ws: seq<Write>)
    ensures forall p :: 0 <= p < |ws| ==> ws[p].instanceKey == InstanceKey(ws[p].instance)
  {
    if types == [] then [] else Writes(types[..|types| - 1]) + WritesFor(ClassKey(types[|types| - 1]), types[|types| - 1].classes)
  }

  predicate Hits(w: Write, k: string, ik: string) {
    w.classKey == k && w.instanceKey == ik
  }

  /** Write `p` is the last write to cell `(k, ik)`. */
  predicate IsLastHit(ws: seq<Write>, k: string, ik: string, p: int) {
    && 0 <= p < |ws| && Hits(ws[p], k, ik)
    && forall q :: p < q < |ws| ==> !Hits(ws[q], k, ik)
  }

  /** The position of the last write to cell `(k, ik)`, if any. */
  function LastHit(ws: seq<Write>, k: string, ik: string): (r: Option<nat>)
    ensures r.None? <==> forall p :: 0 <= p < |ws| ==> !Hits(ws[p], k, ik)
    ensures r.Some? ==> IsLastHit(ws, k, ik, r.value)
  {
    if ws == [] then None
    else if Hits(ws[|ws| - 1], k, ik) then Some(|ws| - 1)
    else
      var r := LastHit(ws[..|ws| - 1], k, ik);
      assert forall p :: 0 <= p < |ws| - 1 ==> ws[..|ws| - 1][p] == ws[p];
      r
  }

  /** The reference meaning of a cell: the instance of the last write to it. */
  function LastWrite(ws: seq<Write>, k: string, ik: string): Option<Instance> {
    match LastHit(ws, k, ik)
    case None => None
    case Some(p) => Some(ws[p].instance)
  }

  function Lookup(docs: Docs, k: string, ik: string): Option<Instance> {
    if k in docs && ik in docs[k] then Some(docs[k][ik]) else None
  }

  lemma {:induction false} LastWriteAppend(ws: seq<Write>, vs: seq<Write>, k: string, ik: string)
    ensures LastWrite(ws + vs, k, ik)
         == if LastWrite(vs, k, ik).Some? then LastWrite(vs, k, ik) else LastWrite(ws, k, ik)
    decreases |vs|
  {
    if vs == [] {
      assert ws + vs == ws;
    } else if Hits(vs[|vs| - 1], k, ik) {
      assert (ws + vs)[|ws + vs| - 1] == vs[|vs| - 1];
    } else {
      assert (ws + vs)[..|ws + vs| - 1] == ws + vs[..|vs| - 1];
      assert (ws + vs)[|ws + vs| - 1] == vs[|vs| - 1];
      LastWriteAppend(ws, vs[..|vs| - 1], k, ik);
    }
  }

  /** The inner loop, cell by cell: an instance key written by `cs` holds the
      last instance written to it, any other key keeps its earlier value. */
  lemma {:induction false} AddInstancesCells(inner: map<string, Instance>, k: string, cs: seq<Instance>, ik: string)
    ensures var last := LastWrite(WritesFor(k, cs), k, ik);
            var added := AddInstances(inner, cs);
            && (ik in added <==> ik in inner || last.Some?)
            && (last.Some? ==> added[ik] == last.value)
            && (last.None? && ik in inner ==> added[ik] == inner[ik])
    decreases |cs|
  {
    if cs != [] {
      var init, c := cs[..|cs| - 1], cs[|cs| - 1];
      var w := Write(k, InstanceKey(c), c);
      assert WritesFor(k, cs) == WritesFor(k, init) + [w];
      assert AddInstances(inner, cs) == AddInstances(inner, init)[InstanceKey(c) := c];
      AddInstancesCells(inner, k, init, ik);
      LastWriteAppend(WritesFor(k, init), [w], k, ik);
      assert LastWrite([w], k, ik) == if InstanceKey(c) == ik then Some(c) else None;
    }
  }

  /** The inner loop writes only under its own class key. */
  lemma WritesForOtherClass(k: string, cs: seq<Instance>, k': string, ik: string)
    requires k' != k
    ensures LastWrite(WritesFor(k, cs), k', ik).None?
  {
  }

  /** One turn of the outer loop, cell by cell: a cell the record writes
      holds its last write, every other cell is unchanged. */
  lemma StepCell(docs: Docs, t: NativeType, k: string, ik: string)
    ensures var last := LastWrite(WritesFor(ClassKey(t), t.classes), k, ik);
            Lookup(Step(docs, t), k, ik) == if last.Some? then last else Lookup(docs, k, ik)
  {
    if k != ClassKey(t) {
      WritesForOtherClass(ClassKey(t), t.classes, k, ik);
    } else {
      var inner := if k in docs then docs[k] else map[];
      AddInstancesCells(inner, k, t.classes, ik);
    }
  }

  /** The fold's result, cell by cell, is the last write to that cell. */
  lemma {:induction false} GenerateIsLastWrite(types: seq<NativeType>, k: string, ik: string)
    ensures Lookup(Generate(types), k, ik) == LastWrite(Writes(types), k, ik)
  {
    if types != [] {
      var prefix := types[..|types| - 1];
      var t := types[|types| - 1];
      var ws := WritesFor(ClassKey(t), t.classes);
      assert Writes(types) == Writes(prefix) + ws;
      GenerateIsLastWrite(prefix, k, ik);
      LastWriteAppend(Writes(prefix), ws, k, ik);
      StepCell(Generate(prefix), t, k, ik);
    }
  }

  /** The class key of every input record, in input order. */
  function ClassKeys(types: seq<NativeType>): (ks: seq<string>)
    ensures |ks| == |types|
    ensures forall i :: 0 <= i < |types| ==> ks[i] == ClassKey(types[i])
  {
    if types == [] then [] else ClassKeys(types[..|types| - 1]) + [ClassKey(types[|types| - 1])]
  }

  /** Exactly the class keys of the input appear at the top level, a class
      with no instances included. */
  lemma {:induction false} GenerateClassKeys(types: seq<NativeType>, k: string)
    ensures k in Generate(types) <==> k in ClassKeys(types)
  {
    if types != [] {
      GenerateClassKeys(types[..|types| - 1], k);
    }
  }

  /** The writes of type `i` are among the writes of the whole fold. */
  lemma {:induction false} WritesContain(types: seq<NativeType>, i: nat, j: nat)
    requires i < |types| && j < |types[i].classes|
    ensures Write(ClassKey(types[i]), InstanceKey(types[i].classes[j]), types[i].classes[j]) in Writes(types)
  {
    var prefix := types[..|types| - 1];
    if i < |types| - 1 {
      assert types[i] == prefix[i];
      WritesContain(prefix, i, j);
    } else {
      var ws := WritesFor(ClassKey(types[i]), types[i].classes);
      assert ws[j] in ws;
      assert Writes(types) == Writes(prefix) + ws;
    }
  }

  /** Conversely, every write of the fold stores an input instance, under
      its record's class key. */
  lemma {:induction false} WriteFromInput(types: seq<NativeType>, p: nat)
    requires p < |Writes(types)|
    ensures exists i, j :: 0 <= i < |types| && 0 <= j < |types[i].classes|
              && Writes(types)[p] == Write(ClassKey(types[i]), InstanceKey(types[i].classes[j]), types[i].classes[j])
  {
    var prefix, t := types[..|types| - 1], types[|types| - 1];
    var ws := WritesFor(ClassKey(t), t.classes);
    assert Writes(types) == Writes(prefix) + ws;
    if p < |Writes(prefix)| {
      WriteFromInput(prefix, p);
      var i, j :| 0 <= i < |prefix| && 0 <= j < |prefix[i].classes|
                  && Writes(prefix)[p] == Write(ClassKey(prefix[i]), InstanceKey(prefix[i].classes[j]), prefix[i].classes[j]);
      assert types[i] == prefix[i];
    } else {
      var j := p - |Writes(prefix)|;
      assert Writes(types)[p] == ws[j];
      assert 0 <= |types| - 1 < |types| && 0 <= j < |types[|types| - 1].classes|;
    }
  }

  /** Every (type, instance) pair of the input has a cell in the output, and
      the cell holds, unmodified, an input instance with that instance key
      from a record with that class key. */
  lemma EveryInstanceStored(types: seq<NativeType>, i: nat, j: nat)
    requires i < |types| && j < |types[i].classes|
    ensures var k := ClassKey(types[i]);
            var ik := InstanceKey(types[i].classes[j]);
            && k in Generate(types) && ik in Generate(types)[k]
            && InstanceKey(Generate(types)[k][ik]) == ik
            && exists i', j' :: 0 <= i' < |types| && 0 <= j' < |types[i'].classes|
                 && ClassKey(types[i']) == k && Generate(types)[k][ik] == types[i'].classes[j']
  {
    var k := ClassKey(types[i]);
    var ik := InstanceKey(types[i].classes[j]);
    var ws := Writes(types);
    assert LastHit(ws, k, ik).Some? by {
      WritesContain(types, i, j);
      WrittenCellHasLastHit(ws, Write(k, ik, types[i].classes[j]));
    }
    GenerateIsLastWrite(types, k, ik);
    var p := LastHit(ws, k, ik).value;
    assert Generate(types)[k][ik] == ws[p].instance;
    assert ws[p].instanceKey == InstanceKey(ws[p].instance);
    WriteFromInput(types, p);
    assert ws[p].classKey == k;
  }

  lemma WrittenCellHasLastHit(ws: seq<Write>, w: Write)
    requires w in ws
    ensures LastHit(ws, w.classKey, w.instanceKey).Some?
  {
    var p :| 0 <= p < |ws| && ws[p] == w;
    assert Hits(ws[p], w.classKey, w.instanceKey);
  }

  /** Two records whose class names normalize to the same key share one
      inner map: an instance of the earlier record that no later write
      overwrites is still there after the later record is folded in. */
  lemma SharedClassKeyMerges(types: seq<NativeType>, t: NativeType, ik: string)
    requires ClassKey(t) in Generate(types) && ik in Generate(types)[ClassKey(t)]
    requires forall j :: 0 <= j < |t.classes| ==> InstanceKey(t.classes[j]) != ik
    ensures ClassKey(t) in Generate(types + [t])
    ensures ik in Generate(types + [t])[ClassKey(t)]
    ensures Generate(types + [t])[ClassKey(t)][ik] == Generate(types)[ClassKey(t)][ik]
  {
    var all := types + [t];
    assert all[..|all| - 1] == types && all[|all| - 1] == t;
    var ws := WritesFor(ClassKey(t), t.classes);
    assert LastWrite(ws, ClassKey(t), ik).None? by {
      assert forall p :: 0 <= p < |ws| ==> !Hits(ws[p], ClassKey(t), ik);
    }
    StepCell(Generate(types), t, ClassKey(t), ik);
  }

  /** Within one class key, of two writes to the same instance key the later
      one is what the output holds. */
  lemma LastWriteWins(types: seq<NativeType>, p: nat)
    requires p < |Writes(types)|
    requires forall q :: p < q < |Writes(types)| ==>
               !(Writes(types)[q].classKey == Writes(types)[p].classKey
                 && Writes(types)[q].instanceKey == Writes(types)[p].instanceKey)
    ensures var w := Writes(types)[p];
            && w.classKey in Generate(types) && w.instanceKey in Generate(types)[w.classKey]
            && Generate(types)[w.classKey][w.instanceKey] == w.instance
  {
    var w := Writes(types)[p];
    GenerateIsLastWrite(types, w.classKey, w.instanceKey);
  }

  /** Every key of the output, at both levels, is alphanumeric. */
  lemma GenerateKeysAlnum(types: seq<NativeType>)
    ensures KeysAlnum(Generate(types))
  {
    var docs := Generate(types);
    forall k | k in docs
      ensures AllAlnum(k)
    {
      GenerateClassKeys(types, k);
      var i :| 0 <= i < |types| && ClassKeys(types)[i] == k;
      assert k == Normalize(LastSegment(types[i].nativeClass));
    }
    forall k, ik | k in docs && ik in docs[k]
      ensures AllAlnum(ik)
    {
      GenerateIsLastWrite(types, k, ik);
      var ws := Writes(types);
      var p := LastHit(ws, k, ik).value;
      assert ik == Normalize(ws[p].instance.className);
    }
  }
}
