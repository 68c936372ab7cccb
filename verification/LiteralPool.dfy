/**
 An assembler buffer with forward references to a literal pool, for any type of word:
 loads are emitted unlinked, and binding a label links its load to the literal emitted
 behind the code.
 */
module LiteralPool {
  import opened Wrappers

  // The words emitted for one instruction. With a literal, the word at index `at` is a load
  // still to be linked to a pool entry holding it.
  datatype Group<T> = Group(words: seq<T>, literal: Option<bv64>, at: nat)

  // A pool literal and the position of the load that wants it.
  datatype Label = Label(pos: nat, data: bv64)

  datatype Buffer<T> = Buffer(words: seq<T>, labels: seq<Label>)

  function Append<T>(b: Buffer<T>, g: Group<T>): Buffer<T> {
    Buffer(b.words + g.words, b.labels + if g.literal.Some? then [Label(|b.words| + g.at, g.literal.value)] else [])
  }

  function Emit<T>(gs: seq<Group<T>>): Buffer<T> {
    if gs == [] then Buffer([], []) else Append(Emit(gs[..|gs| - 1]), gs[|gs| - 1])
  }

  // How a target links a load at one position to a literal at another, and how it stores
  // a literal in two words.
  datatype Format<!T> = Format(link: (T, nat, nat) -> T, low: bv64 -> T, high: bv64 -> T)

  // Bind one label here: link its load, then emit the literal.
  function Bind<T>(words: seq<T>, l: Label, f: Format<T>): seq<T> {
    (if l.pos < |words| then words[l.pos := f.link(words[l.pos], l.pos, |words|)] else words)
    + [f.low(l.data), f.high(l.data)]
  }

  function BindAll<T>(words: seq<T>, labels: seq<Label>, f: Format<T>): seq<T> {
    if labels == [] then words
    else Bind(BindAll(words, labels[..|labels| - 1], f), labels[|labels| - 1], f)
  }

  // ---------------------------------------------------------------- the emitted code

  // A group's load, if it has one, is the unlinked load `load`.
  predicate WellShaped<T(==)>(g: Group<T>, load: T) {
    && g.words != []
    && (g.literal.Some? ==> g.at < |g.words| && g.words[g.at] == load)
  }

  ghost predicate AllWellShaped<T>(gs: seq<Group<T>>, load: T) {
    forall i :: 0 <= i < |gs| ==> WellShaped(gs[i], load)
  }

  // Position of the code of group i.
  function Start<T>(gs: seq<Group<T>>, i: nat): nat
    requires i <= |gs|
  {
    |Emit(gs[..i]).words|
  }

  // Every label's load is in the code, unlinked, and the loads come in order.
  ghost predicate Unlinked<T>(words: seq<T>, labels: seq<Label>, load: T) {
    && (forall k :: 0 <= k < |labels| ==> labels[k].pos < |words| && words[labels[k].pos] == load)
    && (forall j, k :: 0 <= j < k < |labels| ==> labels[j].pos < labels[k].pos)
  }

  lemma {:induction false} EmitUnlinked<T>(gs: seq<Group<T>>, load: T)
    requires AllWellShaped(gs, load)
    ensures Unlinked(Emit(gs).words, Emit(gs).labels, load)
  {
    if gs != [] {
      EmitUnlinked(gs[..|gs| - 1], load);
    }
  }

  lemma {:induction false} EmitLength<T>(gs: seq<Group<T>>, bound: nat)
    requires forall i :: 0 <= i < |gs| ==> |gs[i].words| <= bound
    ensures |Emit(gs).words| <= bound * |gs|
  {
    if gs != [] {
      EmitLength(gs[..|gs| - 1], bound);
      assert |Emit(gs).words| == |Emit(gs[..|gs| - 1]).words| + |gs[|gs| - 1].words|;
      assert bound * |gs| == bound * (|gs| - 1) + bound;
    }
  }

  // The code and labels of the first i groups stay in front.
  lemma {:induction false} EmitPrefix<T>(gs: seq<Group<T>>, i: nat)
    requires i <= |gs|
    ensures Emit(gs[..i]).words <= Emit(gs).words
    ensures Emit(gs[..i]).labels <= Emit(gs).labels
    ensures forall k :: |Emit(gs[..i]).labels| <= k < |Emit(gs).labels| ==> Start(gs, i) <= Emit(gs).labels[k].pos
  {
    if i == |gs| {
      assert gs[..i] == gs;
    } else {
      var n := |gs| - 1;
      EmitPrefix(gs[..n], i);
      assert gs[..n][..i] == gs[..i];
    }
  }

  lemma GroupStep<T>(gs: seq<Group<T>>, i: nat)
    requires i < |gs|
    ensures Emit(gs[..i + 1]) == Append(Emit(gs[..i]), gs[i])
    ensures Start(gs, i + 1) == Start(gs, i) + |gs[i].words|
  {
    assert gs[..i + 1][..i] == gs[..i];
  }

  // The words the buffer holds for group i.
  lemma GroupWords<T>(gs: seq<Group<T>>, i: nat, j: nat)
    requires i < |gs| && j < |gs[i].words|
    ensures Start(gs, i) + j < Start(gs, i + 1) <= |Emit(gs).words|
    ensures Emit(gs).words[Start(gs, i) + j] == gs[i].words[j]
  {
    GroupStep(gs, i);
    EmitPrefix(gs, i + 1);
    assert Emit(gs[..i + 1]).words[Start(gs, i) + j] == gs[i].words[j];
  }

  // The label of group i.
  lemma GroupLabel<T>(gs: seq<Group<T>>, i: nat) returns (k: nat)
    requires i < |gs| && gs[i].literal.Some?
    ensures k < |Emit(gs).labels| && Emit(gs).labels[k] == Label(Start(gs, i) + gs[i].at, gs[i].literal.value)
  {
    GroupStep(gs, i);
    EmitPrefix(gs, i + 1);
    k := |Emit(gs[..i]).labels|;
    assert Emit(gs[..i + 1]).labels[k] == Label(Start(gs, i) + gs[i].at, gs[i].literal.value);
  }

  // No other label's load is inside group i.
  lemma GroupOnlyLabel<T>(gs: seq<Group<T>>, i: nat, k: nat, load: T)
    requires i < |gs| && AllWellShaped(gs, load) && k < |Emit(gs).labels|
    requires Start(gs, i) <= Emit(gs).labels[k].pos < Start(gs, i + 1)
    ensures gs[i].literal.Some? && Emit(gs).labels[k].pos == Start(gs, i) + gs[i].at
  {
    GroupStep(gs, i);
    EmitPrefix(gs, i);
    EmitPrefix(gs, i + 1);
    EmitUnlinked(gs[..i], load);
  }

  // ---------------------------------------------------------------- linking

  ghost predicate Linked<T>(words: seq<T>, labels: seq<Label>, f: Format<T>, load: T, image: seq<T>) {
    && |image| == |words| + 2 * |labels|
    && (forall p :: 0 <= p < |words| && (forall k :: 0 <= k < |labels| ==> labels[k].pos != p) ==> image[p] == words[p])
    && (forall k :: 0 <= k < |labels| ==> LinkedLabel(words, labels[k], k, f, load, image))
  }

  // Label k: its load is linked to literal k of the pool, and that literal is its data.
  ghost predicate LinkedLabel<T>(words: seq<T>, l: Label, k: nat, f: Format<T>, load: T, image: seq<T>) {
    && l.pos < |words| <= |words| + 2 * k + 1 < |image|
    && image[l.pos] == f.link(load, l.pos, |words| + 2 * k)
    && image[|words| + 2 * k] == f.low(l.data)
    && image[|words| + 2 * k + 1] == f.high(l.data)
  }

  lemma {:induction false} BindAllLinks<T>(words: seq<T>, labels: seq<Label>, f: Format<T>, load: T)
    requires Unlinked(words, labels, load)
    ensures Linked(words, labels, f, load, BindAll(words, labels, f))
  {
    if labels != [] {
      var n := |labels| - 1;
      var front, last := labels[..n], labels[n];
      BindAllLinks(words, front, f, load);
      var before, after := BindAll(words, front, f), BindAll(words, labels, f);
      assert forall k :: 0 <= k < n ==> front[k] == labels[k];
      assert before[last.pos] == load;
      assert forall p :: 0 <= p < |before| && p != last.pos ==> after[p] == before[p];
      forall k | 0 <= k < |labels|
        ensures LinkedLabel(words, labels[k], k, f, load, after)
      {
        if k < n {
          assert LinkedLabel(words, front[k], k, f, load, before);
        }
      }
    }
  }
}
