/**
 Selective recording: each node is shown on the stream, on the recording,
 or on both. A click cycles an unlocked node through
 both -> stream only -> recording only -> both, and the node's badge names
 its current mode. A global switch turns selective recording on or off, but
 not while a broadcast, a recording or the replay buffer is running.
 */
module SelectiveRecording {
  import opened Common
  import opened SceneNodes
  import opened NodeAggregator
  import opened ItemCommands

  /** The node's aggregated (stream, recording) visibility pair. */
  datatype Channels = Channels(streamVisible: bool, recordingVisible: bool)

  /** `cycleSelectiveRecording`: the setter requests it submits. Nothing is
      requested for a locked node. */
  function CycleCommands(isLocked: bool, c: Channels): (cs: seq<Command>)
    ensures isLocked ==> cs == []
  {
    if isLocked then []
    else if c.streamVisible && c.recordingVisible then [SetRecordingVisible(false)]
    else if c.streamVisible then [SetStreamVisible(false), SetRecordingVisible(true)]
    else [SetStreamVisible(true), SetRecordingVisible(true)]
  }

  /** The effect of one setter request on the pair. */
  function Step(c: Channels, cmd: Command): Channels {
    match cmd
    case SetStreamVisible(b) => c.(streamVisible := b)
    case SetRecordingVisible(b) => c.(recordingVisible := b)
    case _ => c
  }

  /** The effect of setter requests on the pair, applied in order. */
  function ApplyToChannels(c: Channels, cs: seq<Command>): Channels
    decreases |cs|
  {
    if |cs| == 0 then c else ApplyToChannels(Step(c, cs[0]), cs[1..])
  }

  /** Unfolding of `ApplyToChannels` on one or two requests. */
  lemma ApplyToChannelsShort(c: Channels, cs: seq<Command>)
    requires 1 <= |cs| <= 2
    ensures |cs| == 1 ==> ApplyToChannels(c, cs) == Step(c, cs[0])
    ensures |cs| == 2 ==> ApplyToChannels(c, cs) == Step(Step(c, cs[0]), cs[1])
  {
    if |cs| == 2 {
      var c1 := Step(c, cs[0]);
      assert cs[1..][0] == cs[1] && cs[1..][1..] == [];
      assert ApplyToChannels(c1, cs[1..]) == ApplyToChannels(Step(c1, cs[1]), []);
    } else {
      assert cs[1..] == [];
    }
  }

  /** The pair a node shows after a click on its badge. */
  function Cycle(isLocked: bool, c: Channels): (r: Channels)
    ensures isLocked ==> r == c
    ensures !isLocked && c == Channels(true, true) ==> r == Channels(true, false)
    ensures !isLocked && c == Channels(true, false) ==> r == Channels(false, true)
    ensures !isLocked && c == Channels(false, true) ==> r == Channels(true, true)
    ensures !isLocked && c == Channels(false, false) ==> r == Channels(true, true)
  {
    var cs := CycleCommands(isLocked, c);
    if isLocked then c
    else
      ApplyToChannelsShort(c, cs);
      ApplyToChannels(c, cs)
  }

  /** The three modes of the badge. */
  datatype Mode = Both | StreamOnly | RecordingOnly

  /** The mode a badge shows for a pair; a node on neither channel shows
      as recording only. */
  function Classify(c: Channels): Mode {
    if c.streamVisible && c.recordingVisible then Both
    else if c.streamVisible then StreamOnly
    else RecordingOnly
  }

  /** The pair each mode stands for. */
  function ChannelsOf(m: Mode): Channels {
    match m
    case Both => Channels(true, true)
    case StreamOnly => Channels(true, false)
    case RecordingOnly => Channels(false, true)
  }

  /** The reference cycle of modes. */
  function NextMode(m: Mode): Mode {
    match m
    case Both => StreamOnly
    case StreamOnly => RecordingOnly
    case RecordingOnly => Both
  }

  /** The badge of `selectiveRecordingMetadata`: icon class and tooltip. */
  datatype Badge = Badge(icon: string, tooltip: string)

  function SelectiveRecordingMetadata(isStreamVisible: bool, isRecordingVisible: bool): (b: Badge)
    ensures b.icon == "icon-smart-record" <==> isStreamVisible && isRecordingVisible
    ensures b.icon == "icon-broadcast" <==> isStreamVisible && !isRecordingVisible
    ensures b.icon == "icon-studio" <==> !isStreamVisible
  {
    if isStreamVisible && isRecordingVisible then
      Badge("icon-smart-record", "Visible on both Stream and Recording")
    else if isStreamVisible then
      Badge("icon-broadcast", "Only visible on Stream")
    else
      Badge("icon-studio", "Only visible on Recording")
  }

  /** The badge of each mode. */
  function BadgeOf(m: Mode): Badge {
    match m
    case Both => Badge("icon-smart-record", "Visible on both Stream and Recording")
    case StreamOnly => Badge("icon-broadcast", "Only visible on Stream")
    case RecordingOnly => Badge("icon-studio", "Only visible on Recording")
  }

  /** The badge shows exactly the mode of the pair. */
  lemma MetadataShowsMode(c: Channels)
    ensures SelectiveRecordingMetadata(c.streamVisible, c.recordingVisible) == BadgeOf(Classify(c))
  {
  }

  /** A mode's pair is classified back as that mode. */
  lemma ClassifyChannelsOf(m: Mode)
    ensures Classify(ChannelsOf(m)) == m
  {
  }

  /** An unlocked click moves the badge to the next mode of the reference
      cycle: the outcome depends only on the mode shown. */
  lemma CycleFollowsModes(c: Channels)
    ensures Cycle(false, c) == ChannelsOf(NextMode(Classify(c)))
  {
  }

  /** Three clicks bring every pair of the cycle back to itself. */
  lemma CycleThrice(c: Channels)
    requires c.streamVisible || c.recordingVisible
    ensures Cycle(false, Cycle(false, Cycle(false, c))) == c
  {
    CycleFollowsModes(c);
    CycleFollowsModes(Cycle(false, c));
    CycleFollowsModes(Cycle(false, Cycle(false, c)));
  }

  /** The (stream, recording) pair a node with these items displays. */
  function ChannelsOfItems(items: seq<Node>): Channels {
    Channels(EveryHas(items, StreamVisible), EveryHas(items, RecordingVisible))
  }

  /** One request applied to every item of a non-empty selection moves the
      displayed pair by one `Step`. */
  lemma ChannelsOfItemsStep(items: seq<Node>, cmd: Command)
    requires |items| > 0
    requires forall k :: 0 <= k < |items| ==> items[k].ItemNode?
    ensures ChannelsOfItems(ApplyToItems(items, cmd)) == Step(ChannelsOfItems(items), cmd)
  {
    var after := ApplyToItems(items, cmd);
    assert Has(after[0], Target(cmd).0) == Target(cmd).1;
  }

  /** A batch of requests applied to every item of a non-empty selection
      moves the displayed pair as the batch moves the pair itself. */
  lemma {:induction false} ChannelsOfItemsAll(items: seq<Node>, cs: seq<Command>)
    requires |items| > 0
    requires forall k :: 0 <= k < |items| ==> items[k].ItemNode?
    ensures ChannelsOfItems(ApplyAll(items, cs)) == ApplyToChannels(ChannelsOfItems(items), cs)
    decreases |cs|
  {
    if |cs| > 0 {
      var a1 := ApplyToItems(items, cs[0]);
      ChannelsOfItemsStep(items, cs[0]);
      ChannelsOfItemsAll(a1, cs[1..]);
    }
  }

  /** The requests `cycleSelectiveRecording` submits for a node with at least
      one item move the pair the node displays exactly as `Cycle` says. */
  lemma CycleOnItems(items: seq<Node>)
    requires |items| > 0
    requires forall k :: 0 <= k < |items| ==> items[k].ItemNode?
    ensures var c := ChannelsOfItems(items);
            ChannelsOfItems(ApplyAll(items, CycleCommands(false, c))) == Cycle(false, c)
  {
    var c := ChannelsOfItems(items);
    ChannelsOfItemsAll(items, CycleCommands(false, c));
  }

  /** The session flags the global switch depends on. */
  datatype Session = Session(selectiveRecording: bool, replayBufferActive: bool, idle: bool)

  /** `selectiveRecordingLocked`: the switch is frozen while the replay
      buffer runs or the output is not idle. */
  predicate SelectiveRecordingLocked(s: Session) {
    s.replayBufferActive || !s.idle
  }

  /** `toggleSelectiveRecording`: the new value requested for the global
      flag, or `None` when the switch is frozen. */
  function ToggleSelectiveRecording(s: Session): (r: Option<bool>)
    ensures r.None? <==> s.replayBufferActive || !s.idle
    ensures r.Some? ==> r.value != s.selectiveRecording
  {
    if SelectiveRecordingLocked(s) then None
    else Some(!s.selectiveRecording)
  }

  /** The session after the requested value, if any, is applied. */
  function AfterToggle(s: Session): Session {
    match ToggleSelectiveRecording(s)
    case None => s
    case Some(b) => s.(selectiveRecording := b)
  }

  /** Toggling twice restores the global flag, frozen or not. */
  lemma ToggleSelectiveRecordingTwice(s: Session)
    ensures AfterToggle(AfterToggle(s)) == s
  {
  }
}
