/** The monitor object: last content, ring and store updated in place, tied to the model. */
module Monitor {
  import opened Sequences
  import opened TimeKey
  import opened ClipboardTypes
  import opened StoreModel
  import opened BoltStorage
  import opened ClipboardHistory
  import opened ContentProcessing
  import opened MonitorModel

  const HISTORY_SIZE := 100

  class Monitor {
    const cfg: Config
    const storage: BoltStorage
    const history: ClipboardHistory<Content>
    var lastContent: Option<Content>

    ghost predicate Valid()
      reads this, storage, history, history.slots
    {
      storage.Valid() && storage.codec == cfg.codec && history.Valid() && history.size == HISTORY_SIZE
    }

    /** The monitor as a value; its record of accepted contents is what was added to the ring. */
    ghost function State(): MonitorState
      reads this, storage, history
    {
      MonitorState(lastContent, storage.State(), history.added)
    }

    constructor (cfg: Config, storage: BoltStorage)
      requires storage.Valid() && storage.codec == cfg.codec
      ensures Valid() && this.cfg == cfg && this.storage == storage && lastContent == None
      ensures fresh(history) && fresh(history.slots) && history.added == []
    {
      this.cfg := cfg;
      this.storage := storage;
      history := new ClipboardHistory(HISTORY_SIZE);
      lastContent := None;
    }

    /** `Start`: pick up where the store left off. */
    method Start()
      requires Valid()
      modifies this
      ensures Valid() && State() == old(State()).(last := lastContent)
      ensures lastContent == if Latest(cfg.codec, storage.bucket).Some? then Latest(cfg.codec, storage.bucket)
                             else old(lastContent)
      ensures old(lastContent) == None && history.added == [] ==> State() == Started(cfg, storage.State())
    {
      var latest := storage.GetLatestContent();
      if latest.Some? { lastContent := latest; }
    }

    method IsContentEqual(content: Content) returns (equal: bool)
      ensures equal == EqualToLast(content, lastContent)
    {
      if lastContent.None? { return false; }
      var last := lastContent.value;
      if content.kind != last.kind || content.data != last.data { return false; }
      if Instant(content.created) - Instant(last.created) > SAME_CONTENT_WINDOW { return false; }
      return true;
    }

    /** One content from the platform monitor. */
    method HandleContent(content: Content)
      requires Valid()
      modifies this, storage, history, history.slots
      ensures Valid() && State() == Handle(cfg, old(State()), content)
    {
      var equal := IsContentEqual(content);
      if !equal { ProcessNewContent(content); }
    }

    method ProcessNewContent(content: Content)
      requires Valid()
      modifies this, storage, history, history.slots
      ensures Valid()
      ensures State() == match Normalized(cfg, content)
                         case None => old(State())
                         case Some(d) =>
                           MonitorState(Some(d), Save(cfg.codec, old(storage.State()), d), old(history.added) + [d])
    {
      var processed := Process(MonitorProcessor(cfg.maxSize, cfg.existing), content);
      if processed.None? { return; }
      var prepared := processed.value.(kind := cfg.detect(processed.value.data));
      storage.SaveContent(prepared);
      history.Add(prepared);
      lastContent := Some(prepared);
    }

    /** The history shown to the user: the oldest n of the last hundred accepted contents, newest of them first. */
    method GetHistory(n: nat) returns (items: seq<Content>)
      requires Valid()
      ensures items == OldestReversed(Window(State().accepted, HISTORY_SIZE), n)
    {
      items := history.GetLast(n);
    }
  }
}
