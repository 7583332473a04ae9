/** Where the blocks between an opening and a closing tag stand in a text. */
module Tagged {
  import opened Wrappers
  import opened Sequences
  import opened Strings

  datatype Tags = Tags(open: string, close: string)

  /** The texts around the blocks and the blocks, one after the other. */
  function Interleaved(tags: Tags, outer: seq<string>, blocks: seq<string>): string
    requires |outer| == |blocks| + 1
  {
    if blocks == [] then outer[0]
    else outer[0] + tags.open + blocks[0] + tags.close + Interleaved(tags, outer[1..], blocks[1..])
  }

  /** The tag at the end of `text + tag` is the first one there. */
  ghost predicate EndsAtFirst(text: string, tag: string) {
    forall at :: 0 <= at < |text| ==> !StandsAt(tag, text + tag, at)
  }

  /** No tag opens here and is closed behind. */
  ghost predicate HoldsNoBlock(tags: Tags, text: string) {
    forall i, j :: StandsAt(tags.open, text, i) && StandsAt(tags.close, text, j) ==> j < i + |tags.open|
  }

  /** Each block reaches from the first opening tag behind the last one to the first closing
      tag behind that; behind the last block there is no other. */
  ghost predicate IsCutInto(tags: Tags, text: string, outer: seq<string>, blocks: seq<string>) {
    && |outer| == |blocks| + 1 && text == Interleaved(tags, outer, blocks)
    && (forall k :: 0 <= k < |blocks| ==> EndsAtFirst(outer[k], tags.open) && EndsAtFirst(blocks[k], tags.close))
    && HoldsNoBlock(tags, outer[|blocks|])
  }

  lemma SameThere(tag: string, text: string, from: nat, to: nat, k: nat)
    requires from <= to <= |text| && k + |tag| <= to - from
    ensures StandsAt(tag, text[from..to], k) <==> StandsAt(tag, text, from + k)
  {
    SliceOfSlice(text, from, to, k, k + |tag|);
  }

  lemma FoundFirst(tag: string, text: string, from: nat, at: nat)
    requires from <= |text| && Find(tag, text, from) == Some(at) && tag != ""
    ensures text[from..] == text[from..at] + tag + text[at + |tag|..] && EndsAtFirst(text[from..at], tag)
  {
    var before := text[from..at];
    assert before + tag == text[from..at + |tag|];
    forall k | 0 <= k < |before| ensures !StandsAt(tag, before + tag, k) {
      SameThere(tag, text, from, at + |tag|, k);
    }
  }

  lemma StandsInside(tag: string, text: string, at: int)
    requires StandsAt(tag, text, at)
    ensures 0 <= at <= |text| - |tag|
  {
  }

  /** Without a block behind `from` the rest of the text is all outside. */
  lemma NotCut(tags: Tags, text: string, from: nat)
    requires from <= |text|
    requires var i := Find(tags.open, text, from);
             i.None? || Find(tags.close, text, i.value + |tags.open|).None?
    ensures IsCutInto(tags, text[from..], [text[from..]], []) && Flatten([text[from..]]) == text[from..]
  {
    hide StandsAt;
    var rest := text[from..];
    assert Flatten([rest]) == rest + Flatten([]) == rest;
    assert Interleaved(tags, [rest], []) == rest;
    forall i, j | StandsAt(tags.open, rest, i) && StandsAt(tags.close, rest, j) ensures j < i + |tags.open| {
      StandsInside(tags.open, rest, i);
      StandsInside(tags.close, rest, j);
      SameThere(tags.open, text, from, |text|, i);
      SameThere(tags.close, text, from, |text|, j);
      assert text[from..|text|] == rest;
    }
  }

  lemma OneMoreBlock(tags: Tags, before: string, block: string, rest: string, more: seq<string>, blocks: seq<string>)
    requires EndsAtFirst(before, tags.open) && EndsAtFirst(block, tags.close)
    requires IsCutInto(tags, rest, more, blocks)
    ensures IsCutInto(tags, before + tags.open + block + tags.close + rest, [before] + more, [block] + blocks)
    ensures Flatten([before] + more) == before + Flatten(more)
  {
    hide StandsAt, EndsAtFirst, HoldsNoBlock;
    assert ([before] + more)[1..] == more && ([block] + blocks)[1..] == blocks;
  }

  lemma BothTags(tags: Tags, text: string, from: nat, i: nat, j: nat)
    requires tags.open != "" && tags.close != "" && from <= |text|
    requires Find(tags.open, text, from) == Some(i) && Find(tags.close, text, i + |tags.open|) == Some(j)
    ensures EndsAtFirst(text[from..i], tags.open) && EndsAtFirst(text[i + |tags.open|..j], tags.close)
    ensures text[from..] == text[from..i] + tags.open + text[i + |tags.open|..j] + tags.close + text[j + |tags.close|..]
  {
    hide *;
    FoundFirst(tags.open, text, from, i);
    FoundFirst(tags.close, text, i + |tags.open|, j);
    var before, tail, block, rest := text[from..i], text[i + |tags.open|..], text[i + |tags.open|..j], text[j + |tags.close|..];
    Regroup(text[from..], before, tags.open, tail, block, tags.close, rest);
  }

  lemma Regroup(all: string, before: string, open: string, tail: string, block: string, close: string, rest: string)
    requires all == before + open + tail && tail == block + close + rest
    ensures all == before + open + block + close + rest
  {
  }

  /** A block, and what the rest is cut into. */
  lemma CutOneMore(tags: Tags, text: string, from: nat, i: nat, j: nat, more: seq<string>, blocks: seq<string>)
    requires tags.open != "" && tags.close != "" && from <= |text|
    requires Find(tags.open, text, from) == Some(i) && Find(tags.close, text, i + |tags.open|) == Some(j)
    requires IsCutInto(tags, text[j + |tags.close|..], more, blocks)
    ensures IsCutInto(tags, text[from..], [text[from..i]] + more, [text[i + |tags.open|..j]] + blocks)
    ensures Flatten([text[from..i]] + more) == text[from..i] + Flatten(more)
  {
    hide *;
    BothTags(tags, text, from, i, j);
    OneMoreBlock(tags, text[from..i], text[i + |tags.open|..j], text[j + |tags.close|..], more, blocks);
  }
}
