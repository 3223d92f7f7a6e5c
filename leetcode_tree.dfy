// Building a binary tree from a level-order array of optional values with a work queue: the k-th
// item taken from the queue (empty places included) gets its children from places 2k+1 and
// 2k+2 of the array.
module LeetcodeTree {
  import opened Wrappers

  class TreeNode {
    const val: int
    var left: TreeNode?
    var right: TreeNode?

    /** `TreeNode::new`: a leaf. */
    constructor (val: int)
      ensures this.val == val && left == null && right == null
    {
      this.val := val;
      left := null;
      right := null;
    }
  }

  /** The array places the items put in the queue come from while the queue holds `tags` and
    * `k` items have been taken: the item taken `k`-th adds places 2k+1 and 2k+2 (those inside
    * the array) if its own place holds a value. */
  predicate QueueShape(n: nat, tags: seq<nat>, k: nat) {
    k <= |tags| && forall j :: 0 <= j < |tags| ==> j <= tags[j] < n && tags[j] <= 2 * k
  }

  predicate Increasing(tags: seq<nat>) {
    forall j, l :: 0 <= j < l < |tags| ==> tags[j] < tags[l]
  }

  /** The places 2k+1 and 2k+2, those inside the array. */
  function Slots(n: nat, k: nat): (c: seq<nat>)
    ensures |c| <= 2 && forall j :: 0 <= j < |c| ==> c[j] == 2 * k + 1 + j && c[j] < n
  {
    (if 2 * k + 1 < n then [2 * k + 1] else []) + (if 2 * k + 2 < n then [2 * k + 2] else [])
  }

  /** The places the k-th taken item, made from place `t`, adds to the queue: none for an empty
    * place. */
  function Children(v: seq<Option<int>>, t: nat, k: nat): (c: seq<nat>)
    requires t < |v|
    ensures forall j :: 0 <= j < |c| ==> c[j] < |v|
  {
    if v[t].None? then [] else Slots(|v|, k)
  }

  function TagsFrom(v: seq<Option<int>>, tags: seq<nat>, k: nat): seq<nat>
    requires QueueShape(|v|, tags, k)
    decreases |v| - k
  {
    if k == |tags| then tags
    else
      ShapeStep(v, tags, k);
      TagsFrom(v, tags + Children(v, tags[k], k), k + 1)
  }

  /** The queue keeps its shape to the end. */
  lemma {:induction false} TagsFromShape(v: seq<Option<int>>, tags: seq<nat>, k: nat)
    requires QueueShape(|v|, tags, k)
    ensures QueueShape(|v|, TagsFrom(v, tags, k), |TagsFrom(v, tags, k)|)
    decreases |v| - k
  {
    if k < |tags| {
      ShapeStep(v, tags, k);
      TagsFromShape(v, tags + Children(v, tags[k], k), k + 1);
    }
  }

  /** What the queue held stays at the front. */
  lemma {:induction false} TagsFromPrefix(v: seq<Option<int>>, tags: seq<nat>, k: nat)
    requires QueueShape(|v|, tags, k)
    ensures |tags| <= |TagsFrom(v, tags, k)| && forall j :: 0 <= j < |tags| ==> TagsFrom(v, tags, k)[j] == tags[j]
    decreases |v| - k
  {
    if k < |tags| {
      ShapeStep(v, tags, k);
      TagsFromPrefix(v, tags + Children(v, tags[k], k), k + 1);
    }
  }

  /** One round of the loop, as `TagsFrom` sees it. */
  lemma TagsFromStep(v: seq<Option<int>>, tags: seq<nat>, k: nat)
    requires QueueShape(|v|, tags, k) && k < |tags|
    ensures QueueShape(|v|, tags + Children(v, tags[k], k), k + 1)
    ensures TagsFrom(v, tags, k) == TagsFrom(v, tags + Children(v, tags[k], k), k + 1)
  {
    ShapeStep(v, tags, k);
  }

  /** Taking the k-th item keeps the queue's shape. */
  lemma ShapeStep(v: seq<Option<int>>, tags: seq<nat>, k: nat)
    requires QueueShape(|v|, tags, k) && k < |tags|
    ensures QueueShape(|v|, tags + Children(v, tags[k], k), k + 1)
  {
    var last := |tags| - 1;
    assert last <= tags[last] <= 2 * k;
    var next := tags + Children(v, tags[k], k);
    forall j | 0 <= j < |next|
      ensures j <= next[j] < |v| && next[j] <= 2 * (k + 1)
    {
      if j >= |tags| {
        assert next[j] >= 2 * k + 1 && j <= |tags| + 1;
      }
    }
  }

  /** The places the queue holds only grow: an item adds places beyond every place before it. */
  lemma {:induction false} TagsFromIncreasing(v: seq<Option<int>>, tags: seq<nat>, k: nat)
    requires QueueShape(|v|, tags, k) && Increasing(tags)
    ensures Increasing(TagsFrom(v, tags, k))
    decreases |v| - k
  {
    if k < |tags| {
      var next := tags + Children(v, tags[k], k);
      ShapeStep(v, tags, k);
      forall j, l | 0 <= j < l < |next| ensures next[j] < next[l] {
        if l >= |tags| && j < |tags| {
          assert next[j] <= 2 * k;
        }
      }
      TagsFromIncreasing(v, next, k + 1);
    }
  }

  /** A queue of this shape never holds more items than the array has places. */
  lemma ShapeBound(n: nat, tags: seq<nat>, k: nat)
    requires QueueShape(n, tags, k) && tags != []
    ensures |tags| <= n
  {
    assert |tags| - 1 <= tags[|tags| - 1];
  }

  /** The array place of every item the queue ever holds, in the order they are taken. At most
    * one item per place, so the loop takes at most `|v|` items. */
  function Tags(v: seq<Option<int>>): (r: seq<nat>)
    ensures v != [] ==> 1 <= |r| <= |v| && r[0] == 0
    ensures forall j :: 0 <= j < |r| ==> r[j] < |v|
  {
    if v == [] then []
    else
      var r := TagsFrom(v, [0], 0);
      TagsFromShape(v, [0], 0);
      TagsFromPrefix(v, [0], 0);
      ShapeBound(|v|, r, |r|);
      r
  }

  /** No place is taken twice: the places come in increasing order. */
  lemma TagsIncreasing(v: seq<Option<int>>)
    ensures Increasing(Tags(v))
  {
    if v != [] {
      TagsFromIncreasing(v, [0], 0);
    }
  }

  /** `tags` lists places 0 to n-1 in order. */
  predicate IsRange(tags: seq<nat>, n: nat) {
    |tags| == n && forall j :: 0 <= j < n ==> tags[j] == j
  }

  function Min(a: nat, b: nat): nat {
    if a < b then a else b
  }

  /** With a value at every place, a queue that held places 0 to 2k when item k is taken ends
    * up having held every place in order. */
  lemma {:induction false} TagsFromFull(v: seq<Option<int>>, tags: seq<nat>, k: nat)
    requires forall j :: 0 <= j < |v| ==> v[j].Some?
    requires IsRange(tags, Min(|v|, 2 * k + 1)) && QueueShape(|v|, tags, k)
    ensures IsRange(TagsFrom(v, tags, k), |v|)
    decreases |v| - k, 1
  {
    if k < |tags| {
      TagsFromFullStep(v, tags, k);
    } else {
      assert Min(|v|, 2 * k + 1) == |v|;
    }
  }

  lemma {:induction false} TagsFromFullStep(v: seq<Option<int>>, tags: seq<nat>, k: nat)
    requires forall j :: 0 <= j < |v| ==> v[j].Some?
    requires IsRange(tags, Min(|v|, 2 * k + 1)) && QueueShape(|v|, tags, k) && k < |tags|
    ensures IsRange(TagsFrom(v, tags, k), |v|)
    decreases |v| - k, 0
  {
    FullStep(v, tags, k);
    TagsFromFull(v, tags + Children(v, tags[k], k), k + 1);
  }

  /** With a value at every place, taking item k from a queue holding places 0 to 2k leaves
    * it holding places 0 to 2k+2. */
  lemma FullStep(v: seq<Option<int>>, tags: seq<nat>, k: nat)
    requires forall j :: 0 <= j < |v| ==> v[j].Some?
    requires IsRange(tags, Min(|v|, 2 * k + 1)) && QueueShape(|v|, tags, k) && k < |tags|
    ensures IsRange(tags + Children(v, tags[k], k), Min(|v|, 2 * (k + 1) + 1))
    ensures QueueShape(|v|, tags + Children(v, tags[k], k), k + 1)
    ensures TagsFrom(v, tags, k) == TagsFrom(v, tags + Children(v, tags[k], k), k + 1)
  {
    TagsFromStep(v, tags, k);
    var next := tags + Children(v, tags[k], k);
    forall j | 0 <= j < |next| ensures next[j] == j {
      if j >= |tags| {
        assert next[j] == Slots(|v|, k)[j - |tags|];
      }
    }
  }

  /** With a value at every place, every place is taken in order: item k comes from place k. */
  lemma TagsFull(v: seq<Option<int>>)
    requires forall j :: 0 <= j < |v| ==> v[j].Some?
    ensures IsRange(Tags(v), |v|)
  {
    if v != [] {
      TagsFromFull(v, [0], 0);
    }
  }

  /** The item made from place `t`, or null if no item was. */
  function ChildAt(items: seq<TreeNode?>, tags: seq<nat>, t: nat): TreeNode?
    requires |items| == |tags|
  {
    if tags == [] then null
    else if tags[|tags| - 1] == t then items[|items| - 1]
    else ChildAt(items[..|items| - 1], tags[..|tags| - 1], t)
  }

  lemma ChildAtSnoc(items: seq<TreeNode?>, tags: seq<nat>, x: TreeNode?, s: nat, t: nat)
    requires |items| == |tags|
    ensures ChildAt(items + [x], tags + [s], t) == if s == t then x else ChildAt(items, tags, t)
  {
    assert (items + [x])[..|items|] == items && (tags + [s])[..|tags|] == tags;
  }

  /** A place beyond every tag has no item. */
  lemma {:induction false} ChildAtAbsent(items: seq<TreeNode?>, tags: seq<nat>, t: nat)
    requires |items| == |tags| && forall j :: 0 <= j < |tags| ==> tags[j] < t
    ensures ChildAt(items, tags, t) == null
    decreases |tags|
  {
    if tags != [] {
      ChildAtAbsent(items[..|items| - 1], tags[..|tags| - 1], t);
    }
  }

  /** With distinct tags, the item made from place `tags[j]` is item j. */
  lemma {:induction false} ChildAtIndex(items: seq<TreeNode?>, tags: seq<nat>, j: nat)
    requires |items| == |tags| && j < |tags|
    requires forall a, b :: 0 <= a < b < |tags| ==> tags[a] < tags[b]
    ensures ChildAt(items, tags, tags[j]) == items[j]
    decreases |tags|
  {
    var n := |tags| - 1;
    if j < n {
      ChildAtIndex(items[..n], tags[..n], j);
    }
  }

  /** Items made from places beyond the old tags are found among the new ones. */
  lemma {:induction false} ChildAtConcat(a: seq<TreeNode?>, ta: seq<nat>, b: seq<TreeNode?>, tb: seq<nat>, t: nat)
    requires |a| == |ta| && |b| == |tb|
    ensures ChildAt(a + b, ta + tb, t) == if t in tb then ChildAt(b, tb, t) else ChildAt(a, ta, t)
    decreases |b|
  {
    if b == [] {
      assert a + b == a && ta + tb == ta;
    } else {
      var n := |b| - 1;
      assert (a + b)[..|a + b| - 1] == a + b[..n] && (ta + tb)[..|ta + tb| - 1] == ta + tb[..n];
      ChildAtConcat(a, ta, b[..n], tb[..n], t);
      assert tb == tb[..n] + [tb[n]];
    }
  }

  /** `TreeNode::new` for a place holding a value; an empty place makes no node. */
  method MakeNode(x: Option<int>) returns (c: TreeNode?)
    ensures x.None? ==> c == null
    ensures x.Some? ==> c != null && fresh(c) && c.val == x.value && c.left == null && c.right == null
  {
    c := null;
    if x.Some? {
      c := new TreeNode(x.value);
    }
  }

  /** How many of places 2k+1 and 2k+2 are inside an array of `n` places. */
  function SlotCount(n: nat, k: nat): (c: nat)
    ensures c == |Slots(n, k)| && c <= 2
  {
    if 2 * k + 2 < n then 2 else if 2 * k + 1 < n then 1 else 0
  }

  /** One round of the loop for the k-th taken item: a node gets a child for each of places 2k+1
    * and 2k+2 inside the array, and every such place, empty or not, goes in the queue (pushed
    * item j is for place 2k+1+j). */
  method Visit(v: seq<Option<int>>, k: nat, node: TreeNode?) returns (pushed: seq<TreeNode?>)
    requires node != null ==> node.left == null && node.right == null
    modifies node
    ensures |pushed| == if node == null then 0 else SlotCount(|v|, k)
    ensures forall j :: 0 <= j < |pushed| ==> (pushed[j] == null <==> v[2 * k + 1 + j].None?)
    ensures forall j :: 0 <= j < |pushed| && pushed[j] != null ==>
      fresh(pushed[j]) && pushed[j].val == v[2 * k + 1 + j].value &&
      pushed[j].left == null && pushed[j].right == null
    ensures |pushed| == 2 && pushed[0] != null ==> pushed[0] != pushed[1]
    ensures node != null ==>
      node.left == (if |pushed| > 0 then pushed[0] else null) &&
      node.right == (if |pushed| > 1 then pushed[1] else null)
  {
    pushed := [];
    if node != null {
      if 2 * k + 1 < |v| {
        var c := MakeNode(v[2 * k + 1]);
        if c != null {
          node.left := c;
        }
        pushed := [c];
      }
      if 2 * k + 2 < |v| {
        var c := MakeNode(v[2 * k + 2]);
        if c != null {
          node.right := c;
        }
        pushed := pushed + [c];
      }
    }
  }

  /** Item j is made from place `tags[j]`: a node holding that place's value, or null for an
    * empty place. */
  predicate Made(v: seq<Option<int>>, items: seq<TreeNode?>, tags: seq<nat>) {
    |items| == |tags| && forall j :: 0 <= j < |items| ==> MadeAt(v, items, tags, j)
  }

  predicate MadeAt(v: seq<Option<int>>, items: seq<TreeNode?>, tags: seq<nat>, j: nat)
    requires j < |items| == |tags|
  {
    tags[j] < |v| && (items[j] != null <==> v[tags[j]].Some?) &&
    (items[j] != null ==> items[j].val == v[tags[j]].value)
  }

  /** No node is among the items twice: `pos` gives each node's index. */
  predicate Placed(items: seq<TreeNode?>, pos: map<TreeNode, nat>) {
    forall j :: 0 <= j < |items| ==> PlacedAt(items, pos, j)
  }

  predicate PlacedAt(items: seq<TreeNode?>, pos: map<TreeNode, nat>, j: nat)
    requires j < |items|
  {
    items[j] != null ==> items[j] in pos && pos[items[j]] == j
  }

  /** In the snapshot `lefts`/`rights` of the children, the first k items have theirs: the items
    * made from places 2j+1 and 2j+2. */
  predicate Linked(items: seq<TreeNode?>, tags: seq<nat>, lefts: seq<TreeNode?>, rights: seq<TreeNode?>, k: nat)
    requires k <= |items| == |tags| == |lefts| == |rights|
  {
    forall j :: 0 <= j < k ==> LinkedAt(items, tags, lefts, rights, j)
  }

  predicate LinkedAt(items: seq<TreeNode?>, tags: seq<nat>, lefts: seq<TreeNode?>, rights: seq<TreeNode?>, j: nat)
    requires j < |items| == |tags| == |lefts| == |rights|
  {
    items[j] != null ==> lefts[j] == ChildAt(items, tags, 2 * j + 1) && rights[j] == ChildAt(items, tags, 2 * j + 2)
  }

  /** In the snapshot, the items from k on have no children yet. */
  predicate Unlinked(lefts: seq<TreeNode?>, rights: seq<TreeNode?>, k: nat)
    requires |lefts| == |rights|
  {
    forall j :: k <= j < |lefts| ==> lefts[j] == null && rights[j] == null
  }

  function First(pushed: seq<TreeNode?>): TreeNode? {
    if |pushed| > 0 then pushed[0] else null
  }

  function Second(pushed: seq<TreeNode?>): TreeNode? {
    if |pushed| > 1 then pushed[1] else null
  }

  /** `n` empty children. */
  function Nulls(n: nat): (r: seq<TreeNode?>)
    ensures |r| == n && forall j :: 0 <= j < n ==> r[j] == null
  {
    if n == 0 then [] else Nulls(n - 1) + [null]
  }

  /** `pos` with the pushed nodes entered at their indices. */
  function Enter(pos: map<TreeNode, nat>, pushed: seq<TreeNode?>, base: nat): (r: map<TreeNode, nat>)
    requires |pushed| <= 2
    ensures forall o :: o in r ==> o in pos || (|pushed| > 0 && o == pushed[0]) || (|pushed| > 1 && o == pushed[1])
  {
    var p := if |pushed| > 0 && pushed[0] != null then pos[pushed[0] := base] else pos;
    if |pushed| > 1 && pushed[1] != null then p[pushed[1] := base + 1] else p
  }

  /** The items pushed for the k-th taken item are made from the places it adds. */
  lemma MadeStep(v: seq<Option<int>>, items: seq<TreeNode?>, tags: seq<nat>, k: nat, pushed: seq<TreeNode?>)
    requires Made(v, items, tags) && QueueShape(|v|, tags, k) && k < |tags|
    requires |pushed| == |Children(v, tags[k], k)|
    requires forall m :: 0 <= m < |pushed| ==>
      2 * k + 1 + m < |v| && (pushed[m] == null <==> v[2 * k + 1 + m].None?) &&
      (pushed[m] != null ==> pushed[m].val == v[2 * k + 1 + m].value)
    ensures Made(v, items + pushed, tags + Children(v, tags[k], k))
  {
    var slots := Children(v, tags[k], k);
    var items', tags' := items + pushed, tags + slots;
    forall j | 0 <= j < |items'|
      ensures MadeAt(v, items', tags', j)
    {
      if j < |items| {
        assert MadeAt(v, items, tags, j);
      } else {
        var m := j - |items|;
        assert items'[j] == pushed[m] && tags'[j] == slots[m] == 2 * k + 1 + m;
      }
    }
  }

  /** Fresh nodes entered at the end keep every node at one index. */
  lemma PlacedStep(items: seq<TreeNode?>, pos: map<TreeNode, nat>, pushed: seq<TreeNode?>)
    requires Placed(items, pos) && |pushed| <= 2
    requires forall m :: 0 <= m < |pushed| && pushed[m] != null ==> pushed[m] !in pos
    requires |pushed| == 2 && pushed[0] != null ==> pushed[0] != pushed[1]
    ensures Placed(items + pushed, Enter(pos, pushed, |items|))
  {
    forall j | 0 <= j < |items| + |pushed|
      ensures PlacedAt(items + pushed, Enter(pos, pushed, |items|), j)
    {
      if j < |items| {
        assert PlacedAt(items, pos, j);
      }
    }
  }

  /** Giving the k-th taken item the items pushed for it as children links the first k+1
    * items, and leaves the rest (the pushed ones included) without children. */
  lemma LinkedStep(items: seq<TreeNode?>, tags: seq<nat>, lefts: seq<TreeNode?>, rights: seq<TreeNode?>,
                   k: nat, pushed: seq<TreeNode?>, slots: seq<nat>)
    requires k < |tags| == |items| == |lefts| == |rights| && forall j :: 0 <= j < |tags| ==> tags[j] <= 2 * k
    requires Linked(items, tags, lefts, rights, k) && Unlinked(lefts, rights, k)
    requires |pushed| == |slots| <= 2 && forall m :: 0 <= m < |slots| ==> slots[m] == 2 * k + 1 + m
    ensures var lefts', rights' := lefts[k := First(pushed)] + Nulls(|pushed|), rights[k := Second(pushed)] + Nulls(|pushed|);
      Linked(items + pushed, tags + slots, lefts', rights', k + 1) && Unlinked(lefts', rights', k + 1)
  {
    var items', tags' := items + pushed, tags + slots;
    var lefts', rights' := lefts[k := First(pushed)] + Nulls(|pushed|), rights[k := Second(pushed)] + Nulls(|pushed|);
    forall j | 0 <= j < k + 1
      ensures LinkedAt(items', tags', lefts', rights', j)
    {
      if j < k {
        assert LinkedAt(items, tags, lefts, rights, j);
        LinkedKept(items, tags, pushed, slots, k, j);
      } else {
        LinkedLast(items, tags, pushed, slots, k);
      }
    }
  }

  /** Children linked before stay the items made from their places when items for later
    * places are appended. */
  lemma LinkedKept(items: seq<TreeNode?>, tags: seq<nat>, pushed: seq<TreeNode?>, slots: seq<nat>, k: nat, j: nat)
    requires j < k < |tags| == |items| && |pushed| == |slots|
    requires forall m :: 0 <= m < |slots| ==> slots[m] >= 2 * k + 1
    ensures ChildAt(items + pushed, tags + slots, 2 * j + 1) == ChildAt(items, tags, 2 * j + 1)
    ensures ChildAt(items + pushed, tags + slots, 2 * j + 2) == ChildAt(items, tags, 2 * j + 2)
  {
    ChildAtConcat(items, tags, pushed, slots, 2 * j + 1);
    ChildAtConcat(items, tags, pushed, slots, 2 * j + 2);
  }

  /** The k-th taken item's children are the items pushed for it. */
  lemma LinkedLast(items: seq<TreeNode?>, tags: seq<nat>, pushed: seq<TreeNode?>, slots: seq<nat>, k: nat)
    requires k < |tags| == |items| && forall j :: 0 <= j < |tags| ==> tags[j] <= 2 * k
    requires |pushed| == |slots| <= 2 && forall m :: 0 <= m < |slots| ==> slots[m] == 2 * k + 1 + m
    ensures ChildAt(items + pushed, tags + slots, 2 * k + 1) == First(pushed)
    ensures ChildAt(items + pushed, tags + slots, 2 * k + 2) == Second(pushed)
  {
    ChildAtConcat(items, tags, pushed, slots, 2 * k + 1);
    ChildAtConcat(items, tags, pushed, slots, 2 * k + 2);
    SlotsAt(slots, k, pushed);
    ChildAtAbsent(items, tags, 2 * k + 1);
    ChildAtAbsent(items, tags, 2 * k + 2);
  }

  /** Among the items pushed for item k, the one for place 2k+1 comes first and the one for
    * place 2k+2 second. */
  lemma SlotsAt(slots: seq<nat>, k: nat, pushed: seq<TreeNode?>)
    requires |pushed| == |slots| <= 2 && forall m :: 0 <= m < |slots| ==> slots[m] == 2 * k + 1 + m
    ensures ChildAt(pushed, slots, 2 * k + 1) == if |pushed| > 0 then pushed[0] else null
    ensures ChildAt(pushed, slots, 2 * k + 2) == if |pushed| > 1 then pushed[1] else null
  {
    if |pushed| == 2 {
      assert pushed[..1] == [pushed[0]] && slots[..1] == [2 * k + 1];
    }
  }

  /** Dropping the first of the waiting items and appending the pushed ones. */
  lemma QueueNext(items: seq<TreeNode?>, k: nat, pushed: seq<TreeNode?>)
    requires k < |items|
    ensures (items + pushed)[k + 1..] == items[k + 1..] + pushed
  {
  }

  /** The children of the items are those of the snapshot. */
  ghost predicate Mirrors(items: seq<TreeNode?>, lefts: seq<TreeNode?>, rights: seq<TreeNode?>)
    requires |items| == |lefts| == |rights|
    reads items
  {
    forall j :: 0 <= j < |items| ==> MirrorsAt(items, lefts, rights, j)
  }

  ghost predicate MirrorsAt(items: seq<TreeNode?>, lefts: seq<TreeNode?>, rights: seq<TreeNode?>, j: nat)
    requires j < |items| == |lefts| == |rights|
    reads items
  {
    items[j] != null ==> items[j].left == lefts[j] && items[j].right == rights[j]
  }

  /** The pushed items for item k: one per place 2k+1+m inside the array when the item is a
    * node, null exactly for an empty place, otherwise a node outside `pos` holding that place's
    * value. */
  predicate PushedFor(v: seq<Option<int>>, k: nat, isNode: bool, pos: map<TreeNode, nat>, pushed: seq<TreeNode?>) {
    |pushed| == (if isNode then SlotCount(|v|, k) else 0) &&
    (forall m :: 0 <= m < |pushed| ==>
      2 * k + 1 + m < |v| && (pushed[m] == null <==> v[2 * k + 1 + m].None?) &&
      (pushed[m] != null ==> pushed[m] !in pos && pushed[m].val == v[2 * k + 1 + m].value)) &&
    (|pushed| == 2 && pushed[0] != null ==> pushed[0] != pushed[1])
  }

  /** The heap half of a round: item k gets its children, and the snapshot follows. */
  method Link(v: seq<Option<int>>, k: nat, node: TreeNode?, ghost items: seq<TreeNode?>,
              ghost pos: map<TreeNode, nat>, ghost lefts: seq<TreeNode?>, ghost rights: seq<TreeNode?>)
    returns (pushed: seq<TreeNode?>, ghost lefts': seq<TreeNode?>, ghost rights': seq<TreeNode?>)
    requires k < |items| == |lefts| == |rights| && node == items[k] && lefts[k] == null && rights[k] == null
    requires Placed(items, pos) && Mirrors(items, lefts, rights)
    modifies node
    ensures PushedFor(v, k, node != null, pos, pushed)
    ensures forall m :: 0 <= m < |pushed| && pushed[m] != null ==> fresh(pushed[m])
    ensures lefts' == lefts[k := First(pushed)] + Nulls(|pushed|)
    ensures rights' == rights[k := Second(pushed)] + Nulls(|pushed|)
    ensures Mirrors(items + pushed, lefts', rights')
  {
    assert MirrorsAt(items, lefts, rights, k);
    pushed := Visit(v, k, node);
    lefts', rights' := lefts[k := First(pushed)] + Nulls(|pushed|), rights[k := Second(pushed)] + Nulls(|pushed|);
    ghost var items' := items + pushed;
    forall j | 0 <= j < |items'|
      ensures MirrorsAt(items', lefts', rights', j)
    {
      if j < |items| && j != k {
        assert PlacedAt(items, pos, j) && PlacedAt(items, pos, k);
        assert old(MirrorsAt(items, lefts, rights, j));
      }
    }
  }

  /** The bookkeeping half of a round: with the pushed items appended, the items stay made from
    * their places, each at one index, and the first k+1 are linked in the snapshot. */
  lemma Advance(v: seq<Option<int>>, items: seq<TreeNode?>, tags: seq<nat>, pos: map<TreeNode, nat>,
                lefts: seq<TreeNode?>, rights: seq<TreeNode?>, k: nat, pushed: seq<TreeNode?>)
    requires QueueShape(|v|, tags, k) && k < |tags| == |items| == |lefts| == |rights|
    requires Made(v, items, tags) && Placed(items, pos)
    requires Linked(items, tags, lefts, rights, k) && Unlinked(lefts, rights, k)
    requires PushedFor(v, k, items[k] != null, pos, pushed)
    ensures var tags', lefts', rights' := tags + Children(v, tags[k], k),
        lefts[k := First(pushed)] + Nulls(|pushed|), rights[k := Second(pushed)] + Nulls(|pushed|);
      Made(v, items + pushed, tags') && Placed(items + pushed, Enter(pos, pushed, |items|)) &&
      Linked(items + pushed, tags', lefts', rights', k + 1) && Unlinked(lefts', rights', k + 1)
  {
    assert MadeAt(v, items, tags, k);
    AdvanceMade(v, items, tags, pos, k, pushed);
    AdvanceLinked(v, items, tags, lefts, rights, k, pushed);
  }

  lemma AdvanceMade(v: seq<Option<int>>, items: seq<TreeNode?>, tags: seq<nat>, pos: map<TreeNode, nat>,
                    k: nat, pushed: seq<TreeNode?>)
    requires QueueShape(|v|, tags, k) && k < |tags| == |items|
    requires Made(v, items, tags) && Placed(items, pos)
    requires PushedFor(v, k, items[k] != null, pos, pushed)
    ensures Made(v, items + pushed, tags + Children(v, tags[k], k))
    ensures Placed(items + pushed, Enter(pos, pushed, |items|))
  {
    assert MadeAt(v, items, tags, k);
    MadeStep(v, items, tags, k, pushed);
    PlacedStep(items, pos, pushed);
  }

  lemma AdvanceLinked(v: seq<Option<int>>, items: seq<TreeNode?>, tags: seq<nat>, lefts: seq<TreeNode?>,
                      rights: seq<TreeNode?>, k: nat, pushed: seq<TreeNode?>)
    requires QueueShape(|v|, tags, k) && k < |tags| == |items| == |lefts| == |rights|
    requires Linked(items, tags, lefts, rights, k) && Unlinked(lefts, rights, k)
    requires |pushed| == |Children(v, tags[k], k)|
    ensures var tags', lefts', rights' := tags + Children(v, tags[k], k),
        lefts[k := First(pushed)] + Nulls(|pushed|), rights[k := Second(pushed)] + Nulls(|pushed|);
      Linked(items + pushed, tags', lefts', rights', k + 1) && Unlinked(lefts', rights', k + 1)
  {
    LinkedStep(items, tags, lefts, rights, k, pushed, Children(v, tags[k], k));
  }

  /** One round of the loop: the k-th taken item gets its children, and the items pushed for it
    * are made from the places it adds, each at one index, with the first k+1 items linked.
    * The ghost results are the new items, tags, positions and snapshot of the children. */
  method Round(v: seq<Option<int>>, node: TreeNode?, ghost items: seq<TreeNode?>, ghost tags: seq<nat>,
               ghost pos: map<TreeNode, nat>, ghost lefts: seq<TreeNode?>, ghost rights: seq<TreeNode?>, k: nat)
    returns (pushed: seq<TreeNode?>, ghost items': seq<TreeNode?>, ghost tags': seq<nat>,
             ghost pos': map<TreeNode, nat>, ghost lefts': seq<TreeNode?>, ghost rights': seq<TreeNode?>)
    requires QueueShape(|v|, tags, k) && k < |tags| == |items| == |lefts| == |rights| && node == items[k]
    requires Made(v, items, tags) && Placed(items, pos)
    requires Linked(items, tags, lefts, rights, k) && Unlinked(lefts, rights, k)
    requires Mirrors(items, lefts, rights)
    modifies node
    ensures items' == items + pushed && items'[k + 1..] == items[k + 1..] + pushed
    ensures QueueShape(|v|, tags', k + 1) && TagsFrom(v, tags, k) == TagsFrom(v, tags', k + 1)
    ensures |tags'| == |items'| == |lefts'| == |rights'|
    ensures forall o :: o in pos' && o !in pos ==> fresh(o)
    ensures Made(v, items', tags') && Placed(items', pos')
    ensures Linked(items', tags', lefts', rights', k + 1) && Unlinked(lefts', rights', k + 1)
    ensures Mirrors(items', lefts', rights')
  {
    pushed, lefts', rights' := Link(v, k, node, items, pos, lefts, rights);
    Advance(v, items, tags, pos, lefts, rights, k, pushed);
    QueueNext(items, k, pushed);
    TagsFromStep(v, tags, k);
    items', tags', pos' := items + pushed, tags + Children(v, tags[k], k), Enter(pos, pushed, |items|);
  }

  /** `binary_tree_from`. An empty array gives no tree; an empty first place panics. Otherwise
    * `items` are the queue's items in the order they are taken (null for an empty place), item
    * j made from place `Tags(v)[j]`; the k-th item's left child is the item made from place
    * 2k+1 and its right child the one made from place 2k+2 (null if there is none). */
  method BinaryTreeFrom(v: seq<Option<int>>) returns (r: Outcome<TreeNode?>, ghost items: seq<TreeNode?>)
    ensures v == [] <==> r == Returns(null)
    ensures v != [] && v[0].None? <==> r.Panics?
    ensures r.Returns? && v != [] ==>
      |items| == |Tags(v)| && r.value == items[0] != null &&
      (forall j :: 0 <= j < |items| && items[j] != null ==> fresh(items[j])) &&
      (exists pos :: Placed(items, pos)) && Made(v, items, Tags(v)) &&
      forall k :: 0 <= k < |items| && items[k] != null ==>
        items[k].left == ChildAt(items, Tags(v), 2 * k + 1) && items[k].right == ChildAt(items, Tags(v), 2 * k + 2)
  {
    items := [];
    if v == [] {
      return Returns(null), items;
    }
    if v[0].None? {
      return Panics("called `Option::unwrap()` on a `None` value"), items;
    }
    var root := new TreeNode(v[0].value);
    items := Grow(v, root);
    return Returns(root), items;
  }

  /** The loop of `binary_tree_from`, started with the root alone in the queue. */
  method Grow(v: seq<Option<int>>, root: TreeNode) returns (ghost items: seq<TreeNode?>)
    requires v != [] && v[0].Some? && root.val == v[0].value && root.left == null && root.right == null
    modifies root
    ensures |items| == |Tags(v)| && items[0] == root
    ensures forall j :: 0 <= j < |items| && items[j] != null && items[j] != root ==> fresh(items[j])
    ensures (exists pos :: Placed(items, pos)) && Made(v, items, Tags(v))
    ensures forall k :: 0 <= k < |items| && items[k] != null ==>
      items[k].left == ChildAt(items, Tags(v), 2 * k + 1) && items[k].right == ChildAt(items, Tags(v), 2 * k + 2)
  {
    var que: seq<TreeNode?> := [root];
    items := [root];
    ghost var tags: seq<nat> := [0];
    // The index of every node among the items: no node is there twice.
    ghost var pos: map<TreeNode, nat> := map[root := 0];
    // The items' children, as the loop has set them.
    ghost var lefts: seq<TreeNode?>, rights: seq<TreeNode?> := [null], [null];
    var i := 0;
    while que != []
      invariant QueueShape(|v|, tags, i) && |items| == |tags| == |lefts| == |rights| && que == items[i..]
      invariant TagsFrom(v, tags, i) == Tags(v) && items[0] == root
      invariant forall o :: o in pos && o != root ==> fresh(o)
      invariant Made(v, items, tags) && Placed(items, pos)
      invariant Linked(items, tags, lefts, rights, i) && Unlinked(lefts, rights, i)
      invariant Mirrors(items, lefts, rights)
      decreases |v| - i
    {
      var node := que[0];
      assert PlacedAt(items, pos, i);
      que := que[1..];
      var pushed;
      pushed, items, tags, pos, lefts, rights := Round(v, node, items, tags, pos, lefts, rights, i);
      que := que + pushed;
      i := i + 1;
    }
    assert Placed(items, pos);
    forall j | 0 <= j < |items| && items[j] != null && items[j] != root
      ensures fresh(items[j])
    {
      assert PlacedAt(items, pos, j);
    }
    forall k | 0 <= k < |items| && items[k] != null
      ensures items[k].left == ChildAt(items, Tags(v), 2 * k + 1) && items[k].right == ChildAt(items, Tags(v), 2 * k + 2)
    {
      assert LinkedAt(items, tags, lefts, rights, k) && MirrorsAt(items, lefts, rights, k);
    }
  }

  /** Among items made from places 0, 1, 2, ... in order, the one from place t is item t. */
  lemma ChildAtRange(items: seq<TreeNode?>, tags: seq<nat>, t: nat)
    requires IsRange(tags, |items|)
    ensures ChildAt(items, tags, t) == if t < |items| then items[t] else null
  {
    if t < |items| {
      ChildAtIndex(items, tags, t);
    } else {
      ChildAtAbsent(items, tags, t);
    }
  }

  /** With a value at every place the result is the complete tree of the array: item k holds
    * `v[k]` and its children are items 2k+1 and 2k+2. */
  lemma CompleteTree(v: seq<Option<int>>, items: seq<TreeNode?>, k: nat)
    requires k < |v| == |items| && forall j :: 0 <= j < |v| ==> v[j].Some?
    ensures |Tags(v)| == |v| && Tags(v)[k] == k
    ensures ChildAt(items, Tags(v), 2 * k + 1) == if 2 * k + 1 < |v| then items[2 * k + 1] else null
    ensures ChildAt(items, Tags(v), 2 * k + 2) == if 2 * k + 2 < |v| then items[2 * k + 2] else null
  {
    TagsFull(v);
    ChildAtRange(items, Tags(v), 2 * k + 1);
    ChildAtRange(items, Tags(v), 2 * k + 2);
  }
}
