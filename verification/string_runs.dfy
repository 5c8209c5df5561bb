/** Whole runs of string operations: a program holds handles to strings and builds, cuts and flattens them in any
    order, sharing as it likes. */
module StringRuns {
  import opened RopeString
  import opened StringHeap

  datatype Op =
    | New(data: seq<Unit>)
    | NewExternal(data: seq<Unit>)
    | Append(left: nat, right: nat)
    | Cut(source: nat, start: nat, length: nat)
    | Flatten(source: nat)

  type Text = seq<Unit>

  /** What an operation means for the texts the handles stand for; an operation that fails adds none. */
  function Step(texts: seq<Text>, op: Op): seq<Text> {
    match op
    case New(data) => if |data| < MAX_STRING_LENGTH then texts + [data] else texts
    case NewExternal(data) => if |data| < MAX_STRING_LENGTH then texts + [data] else texts
    case Append(i, j) =>
      if i < |texts| && j < |texts| && |texts[i]| + |texts[j]| < MAX_STRING_LENGTH then texts + [texts[i] + texts[j]]
      else texts
    case Cut(i, start, length) =>
      if i < |texts| && start + length <= |texts[i]| then texts + [texts[i][start..start + length]] else texts
    case Flatten(i) => if i < |texts| then texts + [texts[i]] else texts
  }

  function Run(ops: seq<Op>): seq<Text> {
    if ops == [] then [] else Step(Run(ops[..|ops| - 1]), ops[|ops| - 1])
  }

  /** The handles stand for the texts. */
  ghost predicate Stands(strings: set<EcmaString>, handles: seq<EcmaString>, texts: seq<Text>) {
    && |handles| == |texts|
    && forall i :: 0 <= i < |handles| ==> handles[i] in strings && handles[i].content == texts[i]
  }

  method Apply(heap: Heap, handles: seq<EcmaString>, ghost texts: seq<Text>, op: Op) returns (more: seq<EcmaString>)
    requires heap.Valid() && Stands(heap.strings, handles, texts)
    modifies heap, heap.strings
    ensures heap.Valid() && old(heap.strings) <= heap.strings && fresh(heap.strings - old(heap.strings))
    ensures Stands(heap.strings, more, Step(texts, op))
  {
    hide AllOk, Denote, Heap.Table;
    more := handles;
    assert forall i :: 0 <= i < |handles| ==> |handles[i].content| == handles[i].length by {
      forall i | 0 <= i < |handles| ensures |handles[i].content| == handles[i].length {
        StringFacts(heap.strings, handles[i]);
      }
    }
    match op {
      case New(data) =>
        if |data| < MAX_STRING_LENGTH {
          var compressed := CanBeCompressed(data);
          var s := heap.CreateLineString(data, compressed);
          more := handles + [s];
        }
      case NewExternal(data) =>
        if |data| < MAX_STRING_LENGTH {
          var compressed := CanBeCompressed(data);
          var s := heap.CreateFromExternalResource(data, compressed);
          more := handles + [s];
        }
      case Append(i, j) =>
        if i < |handles| && j < |handles| {
          var s := heap.Concat(handles[i], handles[j]);
          if s != null {
            more := handles + [s];
          }
        }
      case Cut(i, start, length) =>
        if i < |handles| && start + length <= handles[i].length {
          var s := heap.GetSubString(handles[i], start, length);
          more := handles + [s];
        }
      case Flatten(i) =>
        if i < |handles| {
          var s := heap.Flatten(handles[i]);
          more := handles + [s];
        }
    }
  }

  /** After any run, every handle denotes the text that the run gives it, and it is encoded in UTF-16 only if that
      text has a unit that cannot be compressed. */
  method RunStrings(ops: seq<Op>) returns (heap: Heap, handles: seq<EcmaString>)
    ensures fresh(heap) && heap.Valid()
    ensures |handles| == |Run(ops)|
    ensures forall i :: 0 <= i < |handles| ==> handles[i] in heap.strings
    ensures forall i :: 0 <= i < |handles| ==> Denote(heap.strings, handles[i]) == Run(ops)[i]
    ensures forall i :: 0 <= i < |handles| ==> (handles[i].utf8 <==> Compressible(Run(ops)[i]))
  {
    hide AllOk, Denote, Heap.Table, Step;
    heap := new Heap();
    handles := [];
    for n := 0 to |ops|
      invariant fresh(heap) && fresh(heap.strings) && heap.Valid()
      invariant Stands(heap.strings, handles, Run(ops[..n]))
    {
      handles := Apply(heap, handles, Run(ops[..n]), ops[n]);
      assert ops[..n + 1][..n] == ops[..n];
    }
    assert ops[..|ops|] == ops;
    forall i | 0 <= i < |handles|
      ensures Denote(heap.strings, handles[i]) == Run(ops)[i] && (handles[i].utf8 <==> Compressible(Run(ops)[i]))
    {
      DenotesContent(heap.strings, handles[i]);
      StringFacts(heap.strings, handles[i]);
    }
  }
}
