/**
 Where the decoder gets to: the item starts it reaches from the first byte through array and
 map heads, each with its item count; the depth of a start is the length of the path to it.
 */
module Reach {
  import opened ByteOrder
  import opened Decoding
  import opened Heads
  import opened Limits
  import opened Results
  import opened RoundTrip
  import opened Values

  /** From a head to an item behind it: element `k` of an array, key or value `k` of a map. */
  datatype Step = Element(k: nat) | Key(k: nat) | Val(k: nat)

  datatype Start = Start(pos: nat, items: nat)

  /** The argument of the array or map head at `pos`, if the decoder goes on behind it. */
  function Opened(p: Profile, data: seq<Byte>, pos: nat, items: nat, depth: nat, major: nat): (r: Option<Argument>)
    ensures r.Some? ==> pos < r.value.pos <= |data| && depth <= p.maxDepth && items < p.maxItems
  {
    if depth > p.maxDepth || items + 1 > p.maxItems || pos >= |data| || data[pos] / 32 != major then None
    else
      match ReadArg(data, pos + 1, data[pos] % 32, pos)
      case Err(_) => None
      case Ok(a) => if a.arg >= INT_LIMIT then None else Some(a)
  }

  /** The start one step on: everything the head puts before it has been accepted. */
  function Child(p: Profile, data: seq<Byte>, s: Start, depth: nat, step: Step): (r: Option<Start>)
    ensures r.Some? ==> s.pos < r.value.pos <= |data|
  {
    match Opened(p, data, s.pos, s.items, depth, if step.Element? then 4 else 5)
    case None => None
    case Some(a) =>
      if step.k >= a.arg then None
      else if step.Element? then
        match DecodeItems(p, data, a.pos, s.items + 1, depth + 1, step.k)
        case Err(_) => None
        case Ok(front) => Some(Start(front.pos, front.items))
      else
        match DecodeEntries(p, data, a.pos, s.items + 1, depth + 1, step.k)
        case Err(_) => None
        case Ok(front) =>
          if step.Key? then Some(Start(front.pos, front.items))
          else
            match DecodeItem(p, data, front.pos, front.items, depth + 1)
            case Err(_) => None
            case Ok(key) =>
              if KeyRefusal(front.val, key.val, data[front.pos..key.pos]).Some? then None
              else Some(Start(key.pos, key.items))
  }

  function StartAt(p: Profile, data: seq<Byte>, path: seq<Step>): (r: Option<Start>)
    ensures r.Some? ==> r.value.pos <= |data|
  {
    if path == [] then Some(Start(0, 0))
    else
      match StartAt(p, data, path[..|path| - 1])
      case None => None
      case Some(s) => Child(p, data, s, |path| - 1, path[|path| - 1])
  }

  /** What the decoder makes of the item at a start. */
  function ItemFrom(p: Profile, data: seq<Byte>, s: Start, depth: nat): Decoded<Value>
    requires s.pos <= |data|
  {
    DecodeItem(p, data, s.pos, s.items, depth)
  }

  // ------------------------------------------------- a refusal below is the verdict

  /** A refused child refuses its parent, with the same reason and position. */
  lemma ChildRefusalStands(p: Profile, data: seq<Byte>, s: Start, depth: nat, step: Step)
    requires s.pos <= |data| && Child(p, data, s, depth, step).Some?
    requires ItemFrom(p, data, Child(p, data, s, depth, step).value, depth + 1).Err?
    ensures ItemFrom(p, data, s, depth) == Err(ItemFrom(p, data, Child(p, data, s, depth, step).value, depth + 1).error)
  {
    hide Opened, DecodeItem, KeyRefusal;
    var major := if step.Element? then 4 else 5;
    var a := Opened(p, data, s.pos, s.items, depth, major).value;
    OpenedReads(p, data, s, depth, major);
    if step.Element? {
      ItemRefusalStands(p, data, a.pos, s.items + 1, depth + 1, step.k + 1, a.arg);
    } else {
      EntryRefusalStands(p, data, a.pos, s.items + 1, depth + 1, step.k + 1, a.arg);
    }
  }

  /** Behind an opened head the item is what its elements or entries make it. */
  lemma OpenedReads(p: Profile, data: seq<Byte>, s: Start, depth: nat, major: nat)
    requires s.pos <= |data| && major in {4, 5} && Opened(p, data, s.pos, s.items, depth, major).Some?
    ensures var a := Opened(p, data, s.pos, s.items, depth, major).value;
            && (major == 4 ==>
                  match DecodeItems(p, data, a.pos, s.items + 1, depth + 1, a.arg)
                  case Ok(r) => ItemFrom(p, data, s, depth) == Ok(Parsed(Array(r.val), r.pos, r.items))
                  case Err(e) => ItemFrom(p, data, s, depth) == Err(e))
            && (major == 5 ==>
                  match DecodeEntries(p, data, a.pos, s.items + 1, depth + 1, a.arg)
                  case Ok(r) => ItemFrom(p, data, s, depth) == Ok(Parsed(Map(r.val.entries), r.pos, r.items))
                  case Err(e) => ItemFrom(p, data, s, depth) == Err(e))
  {
    hide ReadArg, DecodeItems, DecodeEntries;
  }

  /** Whatever start is reached, a refusal there is the decoder's refusal. */
  lemma {:induction false} ReachedRefusalStands(p: Profile, data: seq<Byte>, path: seq<Step>)
    requires StartAt(p, data, path).Some? && ItemFrom(p, data, StartAt(p, data, path).value, |path|).Err?
    ensures Decode(p, data) == Err(ItemFrom(p, data, StartAt(p, data, path).value, |path|).error)
  {
    hide Child, DecodeItem;
    if path != [] {
      var front, step := path[..|path| - 1], path[|path| - 1];
      ChildRefusalStands(p, data, StartAt(p, data, front).value, |front|, step);
      ReachedRefusalStands(p, data, front);
    }
  }

  // --------------------------------------------------- and comes from some start

  lemma {:induction false} FirstRefusedItem(
      p: Profile, data: seq<Byte>, pos: nat, items: nat, depth: nat, n: nat) returns (k: nat)
    requires pos <= |data| && DecodeItems(p, data, pos, items, depth, n).Err?
    ensures k < n && DecodeItems(p, data, pos, items, depth, k).Ok?
    ensures var front := DecodeItems(p, data, pos, items, depth, k).value;
            DecodeItem(p, data, front.pos, front.items, depth)
            == Err(DecodeItems(p, data, pos, items, depth, n).error)
  {
    hide DecodeItem;
    if DecodeItems(p, data, pos, items, depth, n - 1).Err? {
      k := FirstRefusedItem(p, data, pos, items, depth, n - 1);
    } else {
      k := n - 1;
    }
  }

  lemma {:induction false} FirstRefusedEntry(
      p: Profile, data: seq<Byte>, pos: nat, items: nat, depth: nat, n: nat) returns (k: nat)
    requires pos <= |data| && DecodeEntries(p, data, pos, items, depth, n).Err?
    ensures k < n && DecodeEntries(p, data, pos, items, depth, k).Ok?
    ensures var front := DecodeEntries(p, data, pos, items, depth, k).value;
            DecodeEntry(p, data, front.pos, front.items, depth, front.val)
            == Err(DecodeEntries(p, data, pos, items, depth, n).error)
  {
    hide DecodeEntry;
    if DecodeEntries(p, data, pos, items, depth, n - 1).Err? {
      k := FirstRefusedEntry(p, data, pos, items, depth, n - 1);
    } else {
      k := n - 1;
    }
  }

  // --------------------------------------------------------------- bounds on starts

  /** Each item read takes a byte at least. */
  lemma {:induction false} ItemSpendsBytes(p: Profile, data: seq<Byte>, pos: nat, items: nat, depth: nat)
    requires pos <= |data| && DecodeItem(p, data, pos, items, depth).Ok?
    ensures var r := DecodeItem(p, data, pos, items, depth).value; r.items + pos <= r.pos + items
    decreases |data| - pos, 0, 0
  {
    hide ReadArg, TakeBytes, DecodeItems, DecodeEntries;
    var major, ai := data[pos] / 32, data[pos] % 32;
    if major == 4 || major == 5 {
      var a := ReadArg(data, pos + 1, ai, pos).value;
      if major == 4 {
        ItemsSpendBytes(p, data, a.pos, items + 1, depth + 1, a.arg);
      } else {
        EntriesSpendBytes(p, data, a.pos, items + 1, depth + 1, a.arg);
      }
    }
  }

  lemma {:induction false} ItemsSpendBytes(
      p: Profile, data: seq<Byte>, pos: nat, items: nat, depth: nat, k: nat)
    requires pos <= |data| && DecodeItems(p, data, pos, items, depth, k).Ok?
    ensures var r := DecodeItems(p, data, pos, items, depth, k).value; r.items + pos <= r.pos + items
    decreases |data| - pos, 1, k
  {
    hide DecodeItem;
    if k > 0 {
      var front := DecodeItems(p, data, pos, items, depth, k - 1).value;
      ItemsSpendBytes(p, data, pos, items, depth, k - 1);
      ItemSpendsBytes(p, data, front.pos, front.items, depth);
    }
  }

  lemma {:induction false} EntriesSpendBytes(
      p: Profile, data: seq<Byte>, pos: nat, items: nat, depth: nat, k: nat)
    requires pos <= |data| && DecodeEntries(p, data, pos, items, depth, k).Ok?
    ensures var r := DecodeEntries(p, data, pos, items, depth, k).value; r.items + pos <= r.pos + items
    decreases |data| - pos, 1, k
  {
    hide DecodeItem, KeyRefusal;
    if k > 0 {
      var front := DecodeEntries(p, data, pos, items, depth, k - 1).value;
      var key := DecodeItem(p, data, front.pos, front.items, depth).value;
      EntriesSpendBytes(p, data, pos, items, depth, k - 1);
      ItemSpendsBytes(p, data, front.pos, front.items, depth);
      ItemSpendsBytes(p, data, key.pos, key.items, depth);
    }
  }

  /** A start is at least as far in as it is deep, and as there are items before it. */
  lemma {:induction false} StartIsBounded(p: Profile, data: seq<Byte>, path: seq<Step>)
    requires StartAt(p, data, path).Some?
    ensures var s := StartAt(p, data, path).value; |path| <= s.pos && s.items <= s.pos <= |data|
  {
    hide Child;
    if path != [] {
      var front := path[..|path| - 1];
      StartIsBounded(p, data, front);
      ChildIsBounded(p, data, StartAt(p, data, front).value, |front|, path[|path| - 1]);
    }
  }

  lemma ChildIsBounded(p: Profile, data: seq<Byte>, s: Start, depth: nat, step: Step)
    requires s.pos <= |data| && Child(p, data, s, depth, step).Some?
    ensures var t := Child(p, data, s, depth, step).value; s.pos < t.pos && t.items + s.pos <= t.pos + s.items
  {
    hide Opened, DecodeItem, DecodeItems, DecodeEntries, KeyRefusal;
    var a := Opened(p, data, s.pos, s.items, depth, if step.Element? then 4 else 5).value;
    if step.Element? {
      ItemsSpendBytes(p, data, a.pos, s.items + 1, depth + 1, step.k);
    } else {
      EntriesSpendBytes(p, data, a.pos, s.items + 1, depth + 1, step.k);
      var front := DecodeEntries(p, data, a.pos, s.items + 1, depth + 1, step.k).value;
      if step.Val? {
        ItemSpendsBytes(p, data, front.pos, front.items, depth + 1);
      }
    }
  }

  /** Only the last step can lead past the depth bound, and no start is past the item bound. */
  lemma {:induction false} StartIsWithinBounds(p: Profile, data: seq<Byte>, path: seq<Step>)
    requires StartAt(p, data, path).Some?
    ensures |path| <= p.maxDepth + 1 && StartAt(p, data, path).value.items <= p.maxItems
  {
    hide DecodeItem, DecodeItems, DecodeEntries, KeyRefusal, Opened;
    if path != [] {
      var s, depth, step := StartAt(p, data, path[..|path| - 1]).value, |path| - 1, path[|path| - 1];
      var a := Opened(p, data, s.pos, s.items, depth, if step.Element? then 4 else 5).value;
      if step.Element? {
        ListWithinBudget(p, data, a.pos, s.items + 1, depth + 1, step.k);
      } else {
        EntriesWithinBudget(p, data, a.pos, s.items + 1, depth + 1, step.k);
        var front := DecodeEntries(p, data, a.pos, s.items + 1, depth + 1, step.k).value;
        if step.Val? {
          ItemsWithinBudget(p, data, front.pos, front.items, depth + 1);
        }
      }
    }
  }

  // ------------------------------------------------------- starts under larger bounds

  lemma ChildKeeps(p: Profile, q: Profile, data: seq<Byte>, s: Start, depth: nat, step: Step)
    requires Wider(p, q) && s.pos <= |data| && Child(p, data, s, depth, step).Some?
    ensures Child(q, data, s, depth, step) == Child(p, data, s, depth, step)
  {
    hide DecodeItem, DecodeItems, DecodeEntries, KeyRefusal, ReadArg;
    var a := Opened(p, data, s.pos, s.items, depth, if step.Element? then 4 else 5).value;
    if step.Element? {
      ItemsKeep(p, q, data, a.pos, s.items + 1, depth + 1, step.k);
    } else {
      EntriesKeep(p, q, data, a.pos, s.items + 1, depth + 1, step.k);
      var front := DecodeEntries(p, data, a.pos, s.items + 1, depth + 1, step.k).value;
      if step.Val? {
        ItemKeeps(p, q, data, front.pos, front.items, depth + 1);
      }
    }
  }

  /** What is reached under some bounds is reached under larger ones. */
  lemma {:induction false} StartKeeps(p: Profile, q: Profile, data: seq<Byte>, path: seq<Step>)
    requires Wider(p, q) && StartAt(p, data, path).Some?
    ensures StartAt(q, data, path) == StartAt(p, data, path)
  {
    hide Child;
    if path != [] {
      var front := path[..|path| - 1];
      StartKeeps(p, q, data, front);
      ChildKeeps(p, q, data, StartAt(p, data, front).value, |front|, path[|path| - 1]);
    }
  }
}
