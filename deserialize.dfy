/** `deserialize` for an NBT schema: the buffer must hold at least the
    schema's minimal size; the bytes beyond it (`reversed`) are the budget
    for the variable-length parts. The step list is run in order, threading
    the running `offset` through every step, and the first step that fails
    stops the run. The object being filled in is passed in and returned. */
module NbtDriver {
  import opened Wrappers
  import opened Nodes
  import opened Steps
  import opened Layout
  import opened NbtTags
  import opened NbtNode
  import opened NbtSteps
  import opened NbtValues
  import opened NbtDecode
  import opened ByteOrder

  /** `node<S, Option, …>` for the root of a schema. */
  function SchemaTree(schema: Tag, opt: SerializeOption, native: Endian): Tree
  {
    BuildTree(schema, AtRoot, opt, native)
  }

  /** The schema's types below a supported type are supported. */
  lemma {:induction false} SupportedAt(t: Tag, p: seq<nat>, opt: SerializeOption, native: Endian)
    requires Supported(t, opt, native) && TypeAt(t, p).Some?
    ensures Supported(TypeAt(t, p).value, opt, native)
    decreases |p|
  {
    if |p| > 0 {
      Classification(t);
      SupportedAt(ChildTag(t, p[0]), p[1..], opt, native);
    }
  }

  /** A node the schema has lies in the tree, and its payload lies within
      the schema's minimal size. */
  lemma NodeWithin(schema: Tag, opt: SerializeOption, native: Endian, q: seq<nat>)
    requires TypeAt(schema, q).Some?
    ensures ValidPath(SchemaTree(schema, opt, native), q)
    ensures Sub(SchemaTree(schema, opt, native), q).facts.memoryCompatible == MemoryCompatible(TypeAt(schema, q).value, opt, native)
    ensures PayloadMinimalOffset(SchemaTree(schema, opt, native), q) + PayloadSize(TypeAt(schema, q).value)
            <= TotalMinimalSize(SchemaTree(schema, opt, native))
  {
    var tree := SchemaTree(schema, opt, native);
    SubBuildTree(schema, AtRoot, opt, native, q);
    PayloadSizeBound(TypeAt(schema, q).value, PositionAt(schema, q, AtRoot), opt, native);
    ExtentWithinRoot(tree, q);
  }

  /** Every node the schema has lies in `tree`, its payload within the
      tree's minimal size. */
  ghost predicate TreeFits(schema: Tag, tree: Tree)
  {
    forall q :: TypeAt(schema, q).Some? ==>
      ValidPath(tree, q) && PayloadMinimalOffset(tree, q) + PayloadSize(TypeAt(schema, q).value) <= TotalMinimalSize(tree)
  }

  lemma SchemaTreeFits(schema: Tag, opt: SerializeOption, native: Endian)
    ensures TreeFits(schema, SchemaTree(schema, opt, native))
  {
    forall q | TypeAt(schema, q).Some?
      ensures ValidPath(SchemaTree(schema, opt, native), q)
      ensures PayloadMinimalOffset(SchemaTree(schema, opt, native), q) + PayloadSize(TypeAt(schema, q).value)
              <= TotalMinimalSize(SchemaTree(schema, opt, native))
    {
      NodeWithin(schema, opt, native, q);
    }
  }

  /** What stays the same during one run: the schema and option, the host
      byte order, the node tree, the buffer and the budget `reversed`. */
  datatype Job = Job(schema: Tag, opt: SerializeOption, native: Endian, tree: Tree, buf: seq<bv8>, reversed: nat)

  /** A run over a supported schema whose nodes all lie in the tree, on a
      buffer holding the minimal size plus the budget. */
  ghost predicate JobOk(job: Job)
  {
    Supported(job.schema, job.opt, job.native) && TreeFits(job.schema, job.tree)
    && TotalMinimalSize(job.tree) + job.reversed <= |job.buf|
  }

  /** What a step needs to run: no plain payload step (rejected statically),
      an `all` step on a node of the schema, a direct copy of one
      memory-compatible node. */
  ghost predicate Ready(job: Job, x: Step)
  {
    match x
    case Prepend(_) => true
    case Postpend(_) => true
    case Payload(_) => false
    case All(q) => TypeAt(job.schema, q).Some?
    case DirectCopy(ns) =>
      |ns| == 1 && TypeAt(job.schema, ns[0]).Some? && MemoryCompatible(TypeAt(job.schema, ns[0]).value, job.opt, job.native)
  }

  /** The state between steps: the offset within the budget and the object
      of the schema's shape. */
  ghost predicate Between(job: Job, offset: nat, value: Value)
  {
    offset <= job.reversed && Shaped(value, job.schema)
  }

  /** The payload of the node at `q`, read from the running position. */
  lemma PayloadFits(job: Job, q: seq<nat>, offset: nat)
    requires JobOk(job) && TypeAt(job.schema, q).Some? && offset <= job.reversed
    ensures ValidPath(job.tree, q)
    ensures Fits(TypeAt(job.schema, q).value, job.buf, PayloadMinimalOffset(job.tree, q), offset, job.reversed)
  {
  }

  /** `deserialize_one`: a prepend or postpend step checks nothing and
      succeeds; an `all` step runs `deserialize_all` on the node's
      sub-object; a direct copy fills the node's sub-object with the
      payload's bytes, read at the node's minimal payload offset plus the
      running offset, and succeeds. */
  function RunOne(job: Job, x: Step, offset: nat, value: Value): Outcome
    requires JobOk(job) && Ready(job, x) && Between(job, offset, value)
  {
    match x
    case Prepend(_) => Outcome(true, offset, value)
    case Postpend(_) => Outcome(true, offset, value)
    case All(q) => RunAll(job, q, offset, value)
    case DirectCopy(ns) => RunCopy(job, ns[0], offset, value)
  }

  /** An `all` step on the node at `q`. */
  function RunAll(job: Job, q: seq<nat>, offset: nat, value: Value): Outcome
    requires JobOk(job) && TypeAt(job.schema, q).Some? && Between(job, offset, value)
  {
    var ty := TypeAt(job.schema, q).value;
    PayloadFits(job, q, offset);
    PayloadRefShaped(value, job.schema, q);
    SupportedAt(job.schema, q, job.opt, job.native);
    var r := DecodeAll(ty, PayloadRef(value, job.schema, q).value, job.buf, PayloadMinimalOffset(job.tree, q),
                       offset, job.reversed, job.opt, job.native);
    Outcome(r.ok, r.offset, WithPayload(value, job.schema, q, r.value))
  }

  /** A direct copy of the node at `q`: its sub-object becomes the object
      whose memory holds the payload's bytes. */
  function RunCopy(job: Job, q: seq<nat>, offset: nat, value: Value): (r: Outcome)
    requires JobOk(job) && TypeAt(job.schema, q).Some? && Between(job, offset, value)
    ensures r.ok && r.offset == offset
    ensures ValidPath(job.tree, q)
    ensures var at := PayloadMinimalOffset(job.tree, q) + offset;
      var ty := TypeAt(job.schema, q).value;
      at + PayloadSize(ty) <= |job.buf| &&
      PayloadRef(r.value, job.schema, q) == Some(FromMemory(ty, job.buf[at..at + PayloadSize(ty)]))
  {
    var ty := TypeAt(job.schema, q).value;
    PayloadFits(job, q, offset);
    PayloadRefShaped(value, job.schema, q);
    var at := PayloadMinimalOffset(job.tree, q) + offset;
    var x := FromMemory(ty, job.buf[at..at + PayloadSize(ty)]);
    WithPayloadGet(value, job.schema, q, x);
    Outcome(true, offset, WithPayload(value, job.schema, q, x))
  }

  /** An `all` step keeps the object well shaped; on success the offset
      stays within the budget, on failure it has overrun it. */
  lemma RunAllSound(job: Job, q: seq<nat>, offset: nat, value: Value)
    requires JobOk(job) && TypeAt(job.schema, q).Some? && Between(job, offset, value)
    ensures var r := RunAll(job, q, offset, value);
      && Shaped(r.value, job.schema)
      && (r.ok ==> offset <= r.offset <= job.reversed)
      && (!r.ok ==> r.offset > job.reversed)
  {
    var ty := TypeAt(job.schema, q).value;
    PayloadFits(job, q, offset);
    PayloadRefShaped(value, job.schema, q);
    SupportedAt(job.schema, q, job.opt, job.native);
    var prior := PayloadRef(value, job.schema, q).value;
    var base := PayloadMinimalOffset(job.tree, q);
    DecodeAllOffset(ty, prior, job.buf, base, offset, job.reversed, job.opt, job.native);
    var r := DecodeAll(ty, prior, job.buf, base, offset, job.reversed, job.opt, job.native);
    WithPayloadShaped(value, job.schema, q, r.value);
  }

  /** A direct copy keeps the object well shaped. */
  lemma RunCopySound(job: Job, q: seq<nat>, offset: nat, value: Value)
    requires JobOk(job) && TypeAt(job.schema, q).Some? && Between(job, offset, value)
    requires MemoryCompatible(TypeAt(job.schema, q).value, job.opt, job.native)
    ensures Shaped(RunCopy(job, q, offset, value).value, job.schema)
  {
    var ty := TypeAt(job.schema, q).value;
    PayloadFits(job, q, offset);
    var at := PayloadMinimalOffset(job.tree, q) + offset;
    FromMemoryShaped(ty, job.buf[at..at + PayloadSize(ty)], job.opt, job.native);
    WithPayloadShaped(value, job.schema, q, FromMemory(ty, job.buf[at..at + PayloadSize(ty)]));
  }

  /** A step keeps the object well shaped; a prepend, postpend or direct
      copy always succeeds and leaves the offset alone; an `all` step that
      succeeds keeps the offset within the budget, and one that fails has
      overrun it. */
  lemma RunOneSound(job: Job, x: Step, offset: nat, value: Value)
    requires JobOk(job) && Ready(job, x) && Between(job, offset, value)
    ensures var r := RunOne(job, x, offset, value);
      && Shaped(r.value, job.schema)
      && (!x.All? ==> r.ok && r.offset == offset)
      && (r.ok ==> offset <= r.offset <= job.reversed)
      && (!r.ok ==> r.offset > job.reversed)
  {
    match x
    case Prepend(_) =>
    case Postpend(_) =>
    case All(q) => RunAllSound(job, q, offset, value);
    case DirectCopy(ns) => RunCopySound(job, ns[0], offset, value);
  }

  /** A direct copy of a node gives the same result as an `all` step on
      it: skipping the per-element decode of a memory-compatible payload
      changes nothing. */
  lemma DirectCopyIsAll(job: Job, q: seq<nat>, offset: nat, value: Value)
    requires JobOk(job) && Ready(job, DirectCopy([q])) && Between(job, offset, value)
    ensures RunOne(job, DirectCopy([q]), offset, value) == RunOne(job, All(q), offset, value)
  {
    var ty := TypeAt(job.schema, q).value;
    PayloadFits(job, q, offset);
    PayloadRefShaped(value, job.schema, q);
    SupportedAt(job.schema, q, job.opt, job.native);
    DirectCopyAgrees(ty, PayloadRef(value, job.schema, q).value, job.buf,
                     PayloadMinimalOffset(job.tree, q), offset, job.reversed, job.opt, job.native);
  }

  /** Every step of the list is ready to run. */
  ghost predicate AllReady(job: Job, steps: seq<Step>)
  {
    forall x :: x in steps ==> Ready(job, x)
  }

  /** `deserialize_impl`: the steps from `i` on, run in order from `offset`,
      stopping at the first failure. */
  function RunFrom(job: Job, steps: seq<Step>, i: nat, offset: nat, value: Value): Outcome
    requires JobOk(job) && AllReady(job, steps) && i <= |steps| && Between(job, offset, value)
    decreases |steps| - i
  {
    if i == |steps| then Outcome(true, offset, value)
    else
      var r := RunOne(job, steps[i], offset, value);
      RunOneSound(job, steps[i], offset, value);
      if !r.ok then r else RunFrom(job, steps, i + 1, r.offset, r.value)
  }

  /** Every step the pipeline builds for an NBT schema is ready to run. */
  lemma StepListReady(job: Job)
    requires job.tree == SchemaTree(job.schema, job.opt, job.native)
    ensures AllReady(job, GenerateStepList(job.tree))
  {
    var tree := job.tree;
    var g := Generate(tree, []);
    NbtCompactIsIdentity(job.schema, job.opt, job.native);
    ExpandIsRef(g);
    ExpandRefOrigin(g);
    StepListTiles(tree);
    TilesStepOk(tree, g, 0, TotalMinimalSize(tree));
    GenerateCopiesCompatible(tree, []);
    forall x | x in GenerateStepList(tree)
      ensures Ready(job, x)
    {
      if x.All? {
        assert StepOk(tree, Payload(x.node));
        SubBuildTree(job.schema, AtRoot, job.opt, job.native, x.node);
      } else if x.DirectCopy? {
        SubBuildTree(job.schema, AtRoot, job.opt, job.native, x.nodes[0]);
      }
    }
  }

  /** `deserialize_one`, run on the object: it computes `RunOne`. */
  method DeserializeOne(job: Job, x: Step, offset: nat, value: Value) returns (ok: bool, newOffset: nat, v: Value)
    requires JobOk(job) && Ready(job, x) && Between(job, offset, value)
    ensures Outcome(ok, newOffset, v) == RunOne(job, x, offset, value)
  {
    match x {
      case Prepend(_) =>
        return true, offset, value;
      case Postpend(_) =>
        return true, offset, value;
      case All(q) =>
        ok, newOffset, v := DeserializeAllStep(job, q, offset, value);
      case DirectCopy(ns) =>
        var q := ns[0];
        var ty := TypeAt(job.schema, q).value;
        PayloadFits(job, q, offset);
        PayloadRefShaped(value, job.schema, q);
        var at := PayloadMinimalOffset(job.tree, q) + offset;
        return true, offset, WithPayload(value, job.schema, q, FromMemory(ty, job.buf[at..at + PayloadSize(ty)]));
    }
  }

  /** An `all` step: `deserialize_all` on the node's sub-object, written
      back into the object. */
  method DeserializeAllStep(job: Job, q: seq<nat>, offset: nat, value: Value) returns (ok: bool, newOffset: nat, v: Value)
    requires JobOk(job) && TypeAt(job.schema, q).Some? && Between(job, offset, value)
    ensures Outcome(ok, newOffset, v) == RunAll(job, q, offset, value)
  {
    var ty := TypeAt(job.schema, q).value;
    PayloadFits(job, q, offset);
    PayloadRefShaped(value, job.schema, q);
    SupportedAt(job.schema, q, job.opt, job.native);
    var part;
    ok, newOffset, part := DeserializeAll(ty, PayloadRef(value, job.schema, q).value, job.buf,
                                          PayloadMinimalOffset(job.tree, q), offset, job.reversed, job.opt, job.native);
    v := WithPayload(value, job.schema, q, part);
  }

  /** The run `deserialize` makes once the buffer holds the minimal size. */
  function JobFor(schema: Tag, opt: SerializeOption, native: Endian, buf: seq<bv8>): (job: Job)
    requires TotalMinimalSize(SchemaTree(schema, opt, native)) <= |buf|
    ensures job.tree == SchemaTree(schema, opt, native)
    ensures TotalMinimalSize(job.tree) + job.reversed == |buf|
  {
    var tree := SchemaTree(schema, opt, native);
    Job(schema, opt, native, tree, buf, |buf| - TotalMinimalSize(tree))
  }

  /** `deserialize`: fails at once when the buffer is shorter than the
      schema's minimal size, and otherwise runs the step list from offset 0
      with the bytes beyond the minimal size as budget. */
  function Decode(schema: Tag, opt: SerializeOption, native: Endian, value: Value, buf: seq<bv8>): Outcome
    requires Supported(schema, opt, native) && Shaped(value, schema)
  {
    if |buf| < TotalMinimalSize(SchemaTree(schema, opt, native)) then Outcome(false, 0, value)
    else
      var job := JobFor(schema, opt, native, buf);
      SchemaTreeFits(schema, opt, native);
      StepListReady(job);
      RunFrom(job, GenerateStepList(job.tree), 0, 0, value)
  }

  /** `deserialize` with its loop over the steps; it computes `Decode`. */
  method Deserialize(schema: Tag, opt: SerializeOption, native: Endian, value: Value, buf: seq<bv8>)
    returns (ok: bool, v: Value)
    requires Supported(schema, opt, native) && Shaped(value, schema)
    ensures ok == Decode(schema, opt, native, value, buf).ok
    ensures v == Decode(schema, opt, native, value, buf).value
  {
    var tree := SchemaTree(schema, opt, native);
    if |buf| < TotalMinimalSize(tree) {
      return false, value;
    }
    var job := JobFor(schema, opt, native, buf);
    SchemaTreeFits(schema, opt, native);
    StepListReady(job);
    var steps := GenerateStepList(job.tree);
    var offset: nat := 0;
    var i: nat := 0;
    v := value;
    while i < |steps|
      invariant i <= |steps| && Between(job, offset, v)
      invariant RunFrom(job, steps, i, offset, v) == RunFrom(job, steps, 0, 0, value)
      decreases |steps| - i
    {
      assert steps[i] in steps;
      RunOneSound(job, steps[i], offset, v);
      var stepOk;
      stepOk, offset, v := DeserializeOne(job, steps[i], offset, v);
      if !stepOk {
        return false, v;
      }
      i := i + 1;
    }
    ok := true;
  }

  // ---------------------------------------------------------------------
  // Properties of a whole run

  /** A run keeps the object well shaped; a successful run ends within the
      budget, and a failed one has overrun it. */
  lemma {:induction false} RunFromSound(job: Job, steps: seq<Step>, i: nat, offset: nat, value: Value)
    requires JobOk(job) && AllReady(job, steps) && i <= |steps| && Between(job, offset, value)
    ensures var r := RunFrom(job, steps, i, offset, value);
      && Shaped(r.value, job.schema)
      && (r.ok ==> offset <= r.offset <= job.reversed)
      && (!r.ok ==> r.offset > job.reversed)
    decreases |steps| - i
  {
    if i < |steps| {
      RunOneSound(job, steps[i], offset, value);
      var r := RunOne(job, steps[i], offset, value);
      if r.ok {
        RunFromSound(job, steps, i + 1, r.offset, r.value);
      }
    }
  }

  /** A buffer shorter than the schema's minimal size is rejected before
      any step runs: the object is left as it was. */
  lemma ShortBufferFails(schema: Tag, opt: SerializeOption, native: Endian, value: Value, buf: seq<bv8>)
    requires Supported(schema, opt, native) && Shaped(value, schema)
    requires |buf| < TotalMinimalSize(SchemaTree(schema, opt, native))
    ensures !Decode(schema, opt, native, value, buf).ok
    ensures Decode(schema, opt, native, value, buf).value == value
  {
  }

  /** `deserialize` leaves an object of the schema's shape; when it
      succeeds, the minimal size plus the extra bytes the strings took fit
      in the buffer; when the buffer holds the minimal size and it still
      fails, the announced lengths overran the buffer. */
  lemma DecodeSound(schema: Tag, opt: SerializeOption, native: Endian, value: Value, buf: seq<bv8>)
    requires Supported(schema, opt, native) && Shaped(value, schema)
    ensures var r := Decode(schema, opt, native, value, buf);
      var total := TotalMinimalSize(SchemaTree(schema, opt, native));
      && Shaped(r.value, schema)
      && (r.ok ==> total + r.offset <= |buf|)
      && (!r.ok && total <= |buf| ==> total + r.offset > |buf|)
  {
    if TotalMinimalSize(SchemaTree(schema, opt, native)) <= |buf| {
      var job := JobFor(schema, opt, native, buf);
      SchemaTreeFits(schema, opt, native);
      StepListReady(job);
      RunFromSound(job, GenerateStepList(job.tree), 0, 0, value);
    }
  }

  /** The schema holds no string anywhere. */
  predicate NoStrings(t: Tag)
  {
    match t
    case Str => false
    case List(e, _) => NoStrings(e)
    case Compound(fs) => forall i :: 0 <= i < |fs| ==> NoStrings(fs[i].tag)
    case _ => true
  }

  /** Without strings every payload has a fixed size. */
  lemma {:induction false} NoStringsFixed(t: Tag)
    requires NoStrings(t)
    ensures IsComplex(t) || t.Other? || PayloadFixed(t)
  {
    Classification(t);
    if t.List? && IsSimple(t) {
      NoStringsFixed(t.elem);
      Classification(t.elem);
    }
  }

  /** Conversely, a simple payload holding a string is not of fixed size:
      among simple types, exactly the string-free ones are fixed. */
  lemma {:induction false} StringsNotFixed(t: Tag)
    requires IsSimple(t) && !NoStrings(t)
    ensures !PayloadFixed(t)
  {
    Classification(t);
    if t.List? {
      StringsNotFixed(t.elem);
    }
  }

  lemma {:induction false} NoStringsAt(t: Tag, p: seq<nat>)
    requires NoStrings(t) && TypeAt(t, p).Some?
    ensures NoStrings(TypeAt(t, p).value)
    decreases |p|
  {
    if |p| > 0 {
      Classification(t);
      if t.Compound? {
        assert ChildTag(t, p[0]) == t.fields[p[0]].tag;
      }
      NoStringsAt(ChildTag(t, p[0]), p[1..]);
    }
  }

  /** Over a schema without strings every step succeeds and none moves the offset. */
  lemma {:induction false} RunFromNoStrings(job: Job, steps: seq<Step>, i: nat, offset: nat, value: Value)
    requires JobOk(job) && AllReady(job, steps) && i <= |steps| && Between(job, offset, value)
    requires NoStrings(job.schema)
    ensures RunFrom(job, steps, i, offset, value).ok
    ensures RunFrom(job, steps, i, offset, value).offset == offset
    decreases |steps| - i
  {
    if i < |steps| {
      var x := steps[i];
      assert x in steps;
      RunOneSound(job, x, offset, value);
      if x.All? {
        var q := x.node;
        var ty := TypeAt(job.schema, q).value;
        NoStringsAt(job.schema, q);
        NoStringsFixed(ty);
        PayloadFits(job, q, offset);
        PayloadRefShaped(value, job.schema, q);
        SupportedAt(job.schema, q, job.opt, job.native);
        FixedNeverFails(ty, PayloadRef(value, job.schema, q).value, job.buf, PayloadMinimalOffset(job.tree, q),
                        offset, job.reversed, job.opt, job.native);
      }
      var r := RunOne(job, x, offset, value);
      RunFromNoStrings(job, steps, i + 1, r.offset, r.value);
    }
  }

  /** A schema without strings decodes from any buffer holding its minimal
      size, and consumes no byte beyond it. */
  lemma DecodeNoStrings(schema: Tag, opt: SerializeOption, native: Endian, value: Value, buf: seq<bv8>)
    requires Supported(schema, opt, native) && Shaped(value, schema) && NoStrings(schema)
    requires TotalMinimalSize(SchemaTree(schema, opt, native)) <= |buf|
    ensures Decode(schema, opt, native, value, buf).ok
    ensures Decode(schema, opt, native, value, buf).offset == 0
  {
    var job := JobFor(schema, opt, native, buf);
    SchemaTreeFits(schema, opt, native);
    StepListReady(job);
    RunFromNoStrings(job, GenerateStepList(job.tree), 0, 0, value);
  }

  // ---------------------------------------------------------------------
  // An int at the root

  /** A big-endian int named "" at the root: tag 3, empty name, then the
      four bytes 00 00 01 00. */
  const IntAtRoot: seq<bv8> := [0x03, 0x00, 0x00, 0x00, 0x00, 0x01, 0x00]

  /** The step list of an int at the root: its header, then a direct copy
      when the host is big-endian, or one `all` step (header and payload
      merged) otherwise. */
  lemma IntSteps(native: Endian)
    ensures native == Big ==> GenerateStepList(SchemaTree(Int, DefaultOption, native)) == [Prepend([]), DirectCopy([[]])]
    ensures native != Big ==> GenerateStepList(SchemaTree(Int, DefaultOption, native)) == [All([])]
    ensures TotalMinimalSize(SchemaTree(Int, DefaultOption, native)) == 7
  {
    var tree := SchemaTree(Int, DefaultOption, native);
    NbtCompactIsIdentity(Int, DefaultOption, native);
    assert PayloadMinimalSize(tree) == 4;
    if native == Big {
      var g := [Prepend([]), DirectCopy([[]])];
      assert Generate(tree, []) == g;
      ExpandIsRef(g);
      assert g[1..] == [DirectCopy([[]])];
      assert ExpandRef(g[1..]) == [DirectCopy([[]])];
    } else {
      assert Generate(tree, []) == [Prepend([]), Payload([])];
      ExpandCollapses([]);
    }
  }

  /** The run of an int at the root: a valid job with no budget, the
      payload at offset 3, whose four bytes are 00 00 01 00. */
  lemma IntJobFacts(native: Endian)
    ensures TotalMinimalSize(SchemaTree(Int, DefaultOption, native)) <= |IntAtRoot|
    ensures var job := JobFor(Int, DefaultOption, native, IntAtRoot);
      && JobOk(job) && job.reversed == 0
      && PayloadMinimalOffset(job.tree, []) == 3
      && job.buf[3..7] == [0x00, 0x00, 0x01, 0x00]
  {
    IntSteps(native);
    SchemaTreeFits(Int, DefaultOption, native);
    var job := JobFor(Int, DefaultOption, native, IntAtRoot);
    assert PayloadMinimalOffset(job.tree, []) == 3;
  }

  /** With the default big-endian option those bytes decode to 256 on
      either host: copied as they are on a big-endian host, byte-swapped on
      a little-endian one. */
  lemma IntAtRootExample(native: Endian)
    ensures var r := Decode(Int, DefaultOption, native, Bytes([0, 0, 0, 0]), IntAtRoot);
      r.ok && r.value.Bytes? && Unsigned(r.value.mem, native) == 256
  {
    ReadBigEndianExample(native);
    if native == Big {
      IntAtRootBig();
    } else {
      IntAtRootLittle(native);
    }
  }

  /** On a big-endian host: the header step, then the direct copy. */
  lemma IntAtRootBig()
    ensures Decode(Int, DefaultOption, Big, Bytes([0, 0, 0, 0]), IntAtRoot) == Outcome(true, 0, Bytes([0, 0, 1, 0]))
  {
    var prior := Bytes([0, 0, 0, 0]);
    IntSteps(Big);
    IntJobFacts(Big);
    var job := JobFor(Int, DefaultOption, Big, IntAtRoot);
    StepListReady(job);
    var steps := GenerateStepList(job.tree);
    var w: seq<bv8> := [0x00, 0x00, 0x01, 0x00];
    assert RunOne(job, steps[1], 0, prior).value == Bytes(w);
    assert RunFrom(job, steps, 0, 0, prior) == RunFrom(job, steps, 1, 0, prior);
    assert RunFrom(job, steps, 1, 0, prior) == RunFrom(job, steps, 2, 0, Bytes(w));
  }

  /** On a little-endian host: one `all` step, which byte-swaps. */
  lemma IntAtRootLittle(native: Endian)
    requires native != Big
    ensures Decode(Int, DefaultOption, native, Bytes([0, 0, 0, 0]), IntAtRoot)
            == Outcome(true, 0, Bytes(EndianGet([0x00, 0x00, 0x01, 0x00], Big, native)))
  {
    var prior := Bytes([0, 0, 0, 0]);
    IntSteps(native);
    IntJobFacts(native);
    var job := JobFor(Int, DefaultOption, native, IntAtRoot);
    StepListReady(job);
    var steps := GenerateStepList(job.tree);
    var r1 := RunOne(job, steps[0], 0, prior);
    assert r1 == Outcome(true, 0, Bytes(EndianGet([0x00, 0x00, 0x01, 0x00], Big, native)));
    assert RunFrom(job, steps, 0, 0, prior) == RunFrom(job, steps, 1, 0, r1.value);
  }

  // ---------------------------------------------------------------------
  // The direction of the direct copy

  /** The direct copy as the source writes it: `memcpy` is given the
      buffer position as destination and the sub-object as source, so the
      object is not filled in (and the read-only buffer would be written). */
  function RunCopyAsWritten(job: Job, q: seq<nat>, offset: nat, value: Value): Outcome
    requires JobOk(job) && TypeAt(job.schema, q).Some? && Between(job, offset, value)
  {
    Outcome(true, offset, value)
  }

  /** The run of an int at the root on a big-endian host. */
  function IntJob(): Job
  {
    JobFor(Int, DefaultOption, Big, IntAtRoot)
  }

  /** On a big-endian host the int at the root is copied directly. As
      written, the copy leaves a zeroed int at 0; the corrected copy fills it
      in with the wire bytes, which read 256. */
  lemma CopyDirectionExample()
    ensures JobOk(IntJob()) && Between(IntJob(), 0, Bytes([0, 0, 0, 0]))
    ensures TypeAt(Int, []) == Some(Int)
    ensures Unsigned(RunCopyAsWritten(IntJob(), [], 0, Bytes([0, 0, 0, 0])).value.mem, Big) == 0
    ensures RunCopy(IntJob(), [], 0, Bytes([0, 0, 0, 0])).value == Bytes([0, 0, 1, 0])
    ensures Unsigned(RunCopy(IntJob(), [], 0, Bytes([0, 0, 0, 0])).value.mem, Big) == 256
  {
    IntJobFacts(Big);
    ZerosReadZero();
    ReadBigEndianExample(Big);
    var r := RunCopy(IntJob(), [], 0, Bytes([0, 0, 0, 0]));
    assert FromMemory(Int, [0x00, 0x00, 0x01, 0x00]) == Bytes([0, 0, 1, 0]);
  }

  lemma ZerosReadZero()
    ensures BigEndianValue([0, 0, 0, 0]) == 0
  {
    BigEndianSnoc([0, 0, 0], 0);
    BigEndianSnoc([0, 0], 0);
    BigEndianSnoc([0], 0);
    BigEndianSnoc([], 0);
    assert [0, 0, 0, 0] == [0, 0, 0] + [0 as bv8];
    assert [0, 0, 0] == [0, 0] + [0 as bv8];
    assert [0, 0] == [0] + [0 as bv8];
    assert [0 as bv8] == [] + [0 as bv8];
  }
}
