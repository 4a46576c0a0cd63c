/** The `printMsgByQueue` admin command: the loop that reads one queue from
    `minOffset` up to `maxOffset`, and the per-tag message statistics it
    gathers on the way.

    The broker is abstract: the loop is handed the answers its successive
    `pull` calls receive, in order. Printing is not modelled.
 */
module PrintMessageByQueue {
  import opened Wrappers
  import JavaText
  import JavaNumbers

  /** `tagCalmap`: a counter per tag. */
  type TagCounts = map<string, int>

  /** The value of `t`'s counter, 0 before it has one. */
  function CountOf(m: TagCounts, t: string): int {
    if t in m then m[t] else 0
  }

  /** Whether a message tag (`getTags`, possibly null) is counted. */
  predicate Counted(tag: Option<string>) {
    !JavaText.IsBlank(tag)
  }

  /** The counters after the messages with tags `tags` were seen, one by one
      in list order: a new tag gets a counter starting from 0, and every
      non-blank tag's counter goes up by one per message. */
  function CountTags(tags: seq<Option<string>>, m: TagCounts): (r: TagCounts)
    ensures forall t :: t in r <==> t in m || (Some(t) in tags && Counted(Some(t)))
    ensures forall t :: t in r ==>
      r[t] == CountOf(m, t) + (if Counted(Some(t)) then multiset(tags)[Some(t)] else 0)
    decreases |tags|
  {
    if |tags| == 0 then m
    else
      var init := tags[..|tags| - 1];
      var last := tags[|tags| - 1];
      assert tags == init + [last];
      var before := CountTags(init, m);
      if Counted(last) then before[last.value := CountOf(before, last.value) + 1]
      else before
  }

  /** `calculateByTag(msgs, tagCalmap, calByTag)`, with the messages given by
      their tags. */
  function CalculateByTag(tags: seq<Option<string>>, tagCalmap: TagCounts, calByTag: bool): (r: TagCounts)
    ensures !calByTag ==> r == tagCalmap
    ensures calByTag ==> forall t :: t in r <==> t in tagCalmap || (Some(t) in tags && Counted(Some(t)))
    ensures calByTag ==> forall t :: t in r ==>
      r[t] == CountOf(tagCalmap, t) + (if Counted(Some(t)) then multiset(tags)[Some(t)] else 0)
  {
    if !calByTag then tagCalmap else CountTags(tags, tagCalmap)
  }

  /** A blank tag never gets a counter, and an existing counter for it never moves. */
  lemma BlankTagsNeverCounted(tags: seq<Option<string>>, tagCalmap: TagCounts, calByTag: bool, t: string)
    requires !Counted(Some(t))
    ensures t in CalculateByTag(tags, tagCalmap, calByTag) <==> t in tagCalmap
    ensures t in tagCalmap ==> CalculateByTag(tags, tagCalmap, calByTag)[t] == tagCalmap[t]
  {
  }

  /** Counting two batches one after the other is counting them together. */
  lemma {:induction false} CalculateByTagConcat(a: seq<Option<string>>, b: seq<Option<string>>,
                                                m: TagCounts, calByTag: bool)
    ensures CalculateByTag(b, CalculateByTag(a, m, calByTag), calByTag) == CalculateByTag(a + b, m, calByTag)
  {
    if calByTag {
      var two := CalculateByTag(b, CalculateByTag(a, m, true), true);
      var one := CalculateByTag(a + b, m, true);
      assert multiset(a + b) == multiset(a) + multiset(b);
      forall t
        ensures t in two <==> t in one
        ensures t in two ==> two[t] == one[t]
      {
        assert Some(t) in a + b <==> Some(t) in a || Some(t) in b;
      }
      assert two.Keys == one.Keys;
    }
  }

  /** `TagCountBean`: a tag and the value of its counter. */
  datatype TagCountBean = TagCountBean(tag: string, count: int) {
    /** `compareTo` as written: the `long` difference of the counts, cast to `int`. */
    function CompareToAsWritten(o: TagCountBean): (r: int)
      ensures JavaNumbers.Int32Min <= r <= JavaNumbers.Int32Max
      ensures JavaNumbers.Int32Min <= o.count - count <= JavaNumbers.Int32Max ==> r == o.count - count
    {
      JavaNumbers.NarrowToInt(JavaNumbers.WrapLong(o.count - count))
    }

    /** `compareTo` as intended, `Long.compare(o.count, count)`: the bean
        with the larger count comes first. */
    function CompareTo(o: TagCountBean): (r: int)
      ensures -1 <= r <= 1
    {
      if o.count > count then 1 else if o.count < count then -1 else 0
    }
  }

  /** The counters of the `long` values an `AtomicLong` that is only ever
      incremented from 0 can hold. */
  predicate IsCounter(b: TagCountBean) {
    0 <= b.count <= JavaNumbers.Int64Max
  }

  /** The corrected comparison sorts by descending count and is a total
      preorder: antisymmetric in sign and transitive. */
  lemma CompareToIsDescendingCount(a: TagCountBean, b: TagCountBean, c: TagCountBean)
    ensures a.CompareTo(b) < 0 <==> a.count > b.count
    ensures a.CompareTo(b) == 0 <==> a.count == b.count
    ensures a.CompareTo(b) > 0 <==> a.count < b.count
    ensures a.CompareTo(b) == -b.CompareTo(a)
    ensures a.CompareTo(b) <= 0 && b.CompareTo(c) <= 0 ==> a.CompareTo(c) <= 0
  {
  }

  /** The sign of the sort key for three-way comparisons. */
  function Sign(x: int): (r: int)
    ensures r < 0 <==> x < 0
    ensures r == 0 <==> x == 0
    ensures -1 <= r <= 1
  {
    if x < 0 then -1 else if x > 0 then 1 else 0
  }

  /** While the two counts are less than 2^31 apart the cast is harmless and
      the written comparison agrees with the intended one. */
  lemma CompareToAsWrittenAgreesWhenClose(a: TagCountBean, b: TagCountBean)
    requires JavaNumbers.Int32Min <= b.count - a.count <= JavaNumbers.Int32Max
    ensures Sign(a.CompareToAsWritten(b)) == a.CompareTo(b)
  {
  }

  /** A bean counted 0 times compares below one counted 2^31 times, so the
      rarer tag is listed first: the `(int)` cast keeps only the low 32 bits
      of the difference, and 2^31 reads back as -2^31. */
  lemma CompareToAsWrittenMisorders()
    ensures var rare := TagCountBean("rare", 0);
      var common := TagCountBean("common", 0x8000_0000);
      && IsCounter(rare) && IsCounter(common)
      && rare.CompareToAsWritten(common) < 0
      && rare.CompareTo(common) > 0
  {
    var rare := TagCountBean("rare", 0);
    var common := TagCountBean("common", 0x8000_0000);
    assert rare.CompareToAsWritten(common) == JavaNumbers.Int32Min;
  }

  /** The statuses of a `PullResult`. */
  datatype PullStatus = Found | NoNewMsg | NoMatchedMsg | OffsetIllegal

  /** What one `consumer.pull` call gives the loop: a result with its status,
      next offset and the tags of the messages found, or an exception. */
  datatype PullOutcome =
    | Pulled(status: PullStatus, nextBeginOffset: int, msgFoundTags: seq<Option<string>>)
    | Threw

  predicate IsFound(a: PullOutcome) {
    a.Pulled? && a.status == Found
  }

  /** Why the read loop ended. `OutOfAnswers` is not a branch of the command:
      it closes the loop when the finite list of broker answers runs out. */
  datatype LoopExit = ReachedMaxOffset | Stopped(status: PullStatus) | PullFailed | OutOfAnswers

  /** The offset the loop holds after `k` answers: every result moves it to
      its `nextBeginOffset`, and an exception leaves it where it was. */
  function OffsetAfter(minOffset: int, answers: seq<PullOutcome>, k: nat): int
    requires k <= |answers|
  {
    if k == 0 then minOffset
    else if answers[k - 1].Pulled? then answers[k - 1].nextBeginOffset
    else OffsetAfter(minOffset, answers, k - 1)
  }

  /** The tag counters after the given answers, counting only the FOUND ones. */
  function CountFound(answers: seq<PullOutcome>, calByTag: bool): TagCounts {
    if |answers| == 0 then map[]
    else
      var before := CountFound(answers[..|answers| - 1], calByTag);
      var last := answers[|answers| - 1];
      if IsFound(last) then CalculateByTag(last.msgFoundTags, before, calByTag) else before
  }

  /** The tags of every message of every FOUND answer, in order. */
  function FoundTags(answers: seq<PullOutcome>): seq<Option<string>> {
    if |answers| == 0 then []
    else
      var last := answers[|answers| - 1];
      FoundTags(answers[..|answers| - 1]) + (if IsFound(last) then last.msgFoundTags else [])
  }

  /** The counters after the loop are exactly the tag statistics of the
      messages in FOUND answers: other answers contribute nothing. */
  lemma {:induction false} CountFoundCountsFoundTags(answers: seq<PullOutcome>, calByTag: bool)
    ensures CountFound(answers, calByTag) == CalculateByTag(FoundTags(answers), map[], calByTag)
    decreases |answers|
  {
    if |answers| > 0 {
      var init := answers[..|answers| - 1];
      var last := answers[|answers| - 1];
      CountFoundCountsFoundTags(init, calByTag);
      if IsFound(last) {
        CalculateByTagConcat(FoundTags(init), last.msgFoundTags, map[], calByTag);
      } else {
        assert FoundTags(answers) == FoundTags(init) + [];
      }
    }
  }

  /** The read loop of `execute`: from `minOffset`, pull while the offset is
      below `maxOffset`, move to each result's `nextBeginOffset`, count the
      tags of FOUND batches, and stop on any other status or an exception. */
  method ReadQueue(minOffset: int, maxOffset: int, answers: seq<PullOutcome>, calByTag: bool)
    returns (offset: int, tagCalmap: TagCounts, pulls: nat, exit: LoopExit)
    ensures pulls <= |answers|
    ensures offset == OffsetAfter(minOffset, answers, pulls)
    ensures forall k :: 0 <= k < pulls ==> OffsetAfter(minOffset, answers, k) < maxOffset
    ensures forall k :: 0 <= k < pulls - 1 ==> IsFound(answers[k])
    ensures exit == ReachedMaxOffset ==> offset >= maxOffset && (pulls == 0 || IsFound(answers[pulls - 1]))
    ensures exit.Stopped? ==>
      pulls > 0 && answers[pulls - 1].Pulled? && answers[pulls - 1].status == exit.status && exit.status != Found
    ensures exit == PullFailed ==> pulls > 0 && answers[pulls - 1].Threw?
    ensures exit == OutOfAnswers ==> pulls == |answers| && offset < maxOffset && (pulls == 0 || IsFound(answers[pulls - 1]))
    ensures tagCalmap == CountFound(answers[..pulls], calByTag)
  {
    offset := minOffset;
    tagCalmap := map[];
    pulls := 0;
    exit := ReachedMaxOffset;
    while offset < maxOffset
      invariant pulls <= |answers|
      invariant offset == OffsetAfter(minOffset, answers, pulls)
      invariant forall k :: 0 <= k < pulls ==> OffsetAfter(minOffset, answers, k) < maxOffset
      invariant forall k :: 0 <= k < pulls ==> IsFound(answers[k])
      invariant tagCalmap == CountFound(answers[..pulls], calByTag)
      decreases |answers| - pulls
    {
      if pulls == |answers| {
        exit := OutOfAnswers;
        break;
      }
      var answer := answers[pulls];
      assert answers[..pulls + 1][..pulls] == answers[..pulls];
      pulls := pulls + 1;
      match answer
      case Threw =>
        exit := PullFailed;
        break;
      case Pulled(status, next, tags) =>
        offset := next;
        if status == Found {
          tagCalmap := CalculateByTag(tags, tagCalmap, calByTag);
        } else {
          exit := Stopped(status);
          break;
        }
    }
  }
}
