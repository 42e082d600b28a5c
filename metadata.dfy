/**
  `parse_metadata`: every `<div>` inside the summary panel, in document
  order, each a short label (`<span>`) over a value (`<h3>`), collected
  into a label-to-value map by a dict comprehension, so a later block
  overwrites an earlier one with the same label.
 */
module Metadata {
  import opened Wrappers
  import opened Page
  import opened Folds

  /** A `<div>` inside the panel, at any depth: the text of its `<span>` and of its `<h3>`, when it has them. */
  datatype MetaBlock = MetaBlock(span: Option<string>, h3: Option<string>)

  /** One comprehension step: `span` and `h3` are looked up in that order, and either may be missing. */
  function BlockEntry(b: MetaBlock): (r: Result<(string, string), PageError>)
    ensures r.Success? <==> b.span.Some? && b.h3.Some?
    ensures r.Success? ==> r.value == (b.span.value, b.h3.value)
    ensures r.Failure? ==> r.error == ElementNotFound
  {
    match b.span
    case None => Failure(ElementNotFound)
    case Some(key) =>
      match b.h3
      case None => Failure(ElementNotFound)
      case Some(value) => Success((key, value))
  }

  /** Every block has both a label and a value. */
  predicate Complete(blocks: seq<MetaBlock>) {
    forall i :: 0 <= i < |blocks| ==> blocks[i].span.Some? && blocks[i].h3.Some?
  }

  /** The label of block `i` does not occur again further down. */
  predicate LastWithLabel(blocks: seq<MetaBlock>, i: int)
    requires 0 <= i < |blocks|
  {
    forall j :: i < j < |blocks| ==> blocks[j].span != blocks[i].span
  }

  /** The comprehension's steps, block by block in document order. */
  function BlockEntries(blocks: seq<MetaBlock>): (entries: seq<Result<(string, string), PageError>>)
    ensures |entries| == |blocks|
    ensures forall i :: 0 <= i < |blocks| ==> entries[i] == BlockEntry(blocks[i])
  {
    seq(|blocks|, i requires 0 <= i < |blocks| => BlockEntry(blocks[i]))
  }

  /**
    The comprehension: a dict filled block by block, a later label
    overwriting. It succeeds exactly when every block has both parts;
    otherwise a lookup raises.
   */
  function Entries(blocks: seq<MetaBlock>): (r: Result<map<string, string>, PageError>)
    ensures r.Success? <==> Complete(blocks)
    ensures r.Failure? ==> r.error == ElementNotFound
  {
    AssembleOk(BlockEntries(blocks));
    if Complete(blocks) then Assemble(BlockEntries(blocks))
    else
      IncompleteFails(blocks);
      Assemble(BlockEntries(blocks))
  }

  /**
    `parse_metadata`, given the panel's `<div>` elements in document order, or `None` when the
    panel does not appear within the 5-second wait.
   */
  function ParseMetadata(panel: Option<seq<MetaBlock>>): (r: Result<map<string, string>, PageError>)
    ensures panel.None? ==> r == Failure(WaitTimedOut)
    ensures panel.Some? ==> (r.Success? <==> Complete(panel.value))
    ensures r.Failure? ==> r.error in {WaitTimedOut, ElementNotFound}
  {
    match panel
    case None => Failure(WaitTimedOut)
    case Some(blocks) =>
      Entries(blocks)
  }

  /** The exception raised for incomplete blocks is the missing element's. */
  lemma IncompleteFails(blocks: seq<MetaBlock>)
    requires !Complete(blocks)
    ensures Assemble(BlockEntries(blocks)) == Failure(ElementNotFound)
  {
    var entries := BlockEntries(blocks);
    var k := FirstIncomplete(blocks, |blocks|);
    assert FirstFailure(entries, k);
    AssembleFirstFailure(entries, k);
  }

  /** The first of the first `n` blocks that lacks a part. */
  function FirstIncomplete(blocks: seq<MetaBlock>, n: int): (k: int)
    requires 0 <= n <= |blocks|
    requires exists i :: 0 <= i < n && !(blocks[i].span.Some? && blocks[i].h3.Some?)
    ensures 0 <= k < n && !(blocks[k].span.Some? && blocks[k].h3.Some?)
    ensures forall j :: 0 <= j < k ==> blocks[j].span.Some? && blocks[j].h3.Some?
    decreases n
  {
    if exists i :: 0 <= i < n - 1 && !(blocks[i].span.Some? && blocks[i].h3.Some?) then
      FirstIncomplete(blocks, n - 1)
    else n - 1
  }

  /** On complete blocks the map's keys are exactly the labels. */
  lemma EntriesKeys(blocks: seq<MetaBlock>)
    requires Complete(blocks)
    ensures Entries(blocks).Success?
    ensures Entries(blocks).value.Keys == set i | 0 <= i < |blocks| :: blocks[i].span.value
  {
    var entries := BlockEntries(blocks);
    AssembleKeys(entries);
    assert (set k | 0 <= k < |entries| :: entries[k].value.0) == set i | 0 <= i < |blocks| :: blocks[i].span.value;
  }

  /** On complete blocks each label maps to the value of the last block that carries it. */
  lemma EntriesLastWins(blocks: seq<MetaBlock>)
    requires Complete(blocks)
    ensures Entries(blocks).Success?
    ensures forall i :: 0 <= i < |blocks| && LastWithLabel(blocks, i) ==>
      && blocks[i].span.value in Entries(blocks).value
      && Entries(blocks).value[blocks[i].span.value] == blocks[i].h3.value
  {
    var entries := BlockEntries(blocks);
    AssembleLastWins(entries);
    forall i | 0 <= i < |blocks| && LastWithLabel(blocks, i)
      ensures LastWithKey(entries, i)
    {
    }
  }

  /** Two blocks with the same label: the map keeps the later value ("Status" → "Pending"). */
  lemma DuplicateLabelKeepsLater(key: string, earlier: string, later: string)
    ensures ParseMetadata(Some([MetaBlock(Some(key), Some(earlier)), MetaBlock(Some(key), Some(later))]))
         == Success(map[key := later])
  {
    var blocks := [MetaBlock(Some(key), Some(earlier)), MetaBlock(Some(key), Some(later))];
    EntriesKeys(blocks);
    EntriesLastWins(blocks);
    assert LastWithLabel(blocks, 1);
    assert (set i | 0 <= i < |blocks| :: blocks[i].span.value) == {key};
    assert Entries(blocks).value == map[key := later];
  }
}
