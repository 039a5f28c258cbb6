/** The profiles that come with the component, opened and used as their validation data says. */
module ShippedProfiles {
  import opened Wrappers
  import opened LogicalAddress
  import opened PhysicalAddress
  import opened Trees
  import opened Network
  import opened Lookup
  import opened Command
  import opened MessageQueue
  import opened HalModel
  import opened EmulatedDevice
  import opened HalFrames
  import opened HalMessages
  import opened HalCalls
  import opened HalDeliveries

  // ----- the set-top box -----

  /** The set-top box profile: IPSTB is emulated, behind an audio system. */
  const STB_CONFIG := Config("IPSTB", 1,
    Profile("Sony Bravia", TV, 0, [
      Profile("Onkyo TX-SR393", AudioSystem, 1, [
        Profile("Chromecast", Playback, 1, []),
        Profile("IPSTB", Playback, 2, [])])]))

  const REMOVE_ONKYO := Process(Message(StateType, RemoveDeviceText("Onkyo TX-SR393")))

  lemma OpenedStb() returns (v: View)
    ensures Opened(STB_CONFIG) == Some(v)
    ensures v.emulated == Some(Down(Down(Here))) && Has(v.tree, Down(Down(Here)))
    ensures BranchName(v.tree.kids, Down(Here)) == "Onkyo TX-SR393"
  {
    var chromecast, stb := Profile("Chromecast", Playback, 1, []), Profile("IPSTB", Playback, 2, []);
    var built := Build(STB_CONFIG.profile);
    var audio := STB_CONFIG.profile.children[0];
    assert audio.children[..1] == [chromecast] && STB_CONFIG.profile.children[..0] == [];
    assert BuildChildren([chromecast]) == Node(Loaded(chromecast), Nil, Nil) by {
      assert [chromecast][..0] == [];
    }
    assert BuildChildren(audio.children) == Node(Loaded(stb), Nil, BuildChildren([chromecast]));
    assert built.kids == Node(Loaded(audio), BuildChildren(audio.children), Nil);
    assert built.val.name[0] != "IPSTB"[0] && audio.name[0] != "IPSTB"[0];
    assert Find(built.kids.kids, "IPSTB") == Some(Here);
    assert Find(built, "IPSTB") == Some(Down(Down(Here)));
    v := Opened(STB_CONFIG).value;
    PassKeeps(built, None, "IPSTB", FRESH_POOL, Down(Down(Here)));
    PassKeeps(built, None, "IPSTB", FRESH_POOL, Down(Here));
  }

  /** There, removing the audio system frees the emulated device, and an address call after it has no meaning. */
  lemma RemovingTheAudioSystem(address: int)
    ensures Opened(STB_CONFIG).Some?
    ensures var v := Opened(STB_CONFIG).value;
            && !Endures(v, [REMOVE_ONKYO]) && Safe(v, [REMOVE_ONKYO])
            && Run(v, [REMOVE_ONKYO]).emulated == None
            && !Safe(v, [REMOVE_ONKYO] + [Add(address)])
  {
    var v := OpenedStb();
    EmulatedEnduresIff(v, [REMOVE_ONKYO]);
    assert Safe(Step(v, REMOVE_ONKYO).0, []) && [REMOVE_ONKYO][1..] == [];
    SafeLast(v, [REMOVE_ONKYO], Add(address));
  }

  /** The emulated set-top box transmits at once, and takes a device that is added to it. */
  lemma SetTopBoxWorks(profile: Profile)
    ensures Opened(STB_CONFIG).Some? && Tx(Opened(STB_CONFIG).value) == Success
    ensures var v := Opened(STB_CONFIG).value;
            Mapped(v) && Find(v.tree, "IPSTB") == v.emulated && Step(v, AddOp(profile, "IPSTB")).0.tree != v.tree
  {
    var v := OpenedStb();
    AddAllOrNothing(v, profile, "IPSTB");
  }

  // ----- the panel with five devices -----

  const PANEL_CONFIG := Config("TVPanel", 3,
    Profile("TVPanel", TV, 0, [
      Profile("Sony", AudioSystem, 1, [
        Profile("Chromecast", Playback, 1, []),
        Profile("IPSTB", Playback, 2, [])]),
      Profile("SONY PS3", Playback, 2, [])]))

  /** The network after opening: below the panel SONY PS3 and Sony, below Sony IPSTB and Chromecast. */
  const PANEL_NETWORK: Tree<Info> :=
    Node(Info("TVPanel", TV, 0, 2, 0x0000, 15),
         Node(Info("SONY PS3", Playback, 2, 0, 0x2000, 4), Nil,
              Node(Info("Sony", AudioSystem, 1, 2, 0x1000, 5),
                   Node(Info("IPSTB", Playback, 2, 0, 0x1200, 8), Nil,
                        Node(Info("Chromecast", Playback, 1, 0, 0x1100, 11), Nil, Nil)),
                   Nil)),
         Nil)

  lemma PanelBuilt(ps3: Info, sony: Info, stb: Info, cast: Info)
    requires ps3 == Info("SONY PS3", Playback, 2, 0, 0xFFFF, -1) && sony == Info("Sony", AudioSystem, 1, 2, 0xFFFF, -1)
    requires stb == Info("IPSTB", Playback, 2, 0, 0xFFFF, -1) && cast == Info("Chromecast", Playback, 1, 0, 0xFFFF, -1)
    ensures Build(PANEL_CONFIG.profile) ==
            Node(Info("TVPanel", TV, 0, 2, 0xFFFF, -1),
                 Node(ps3, Nil, Node(sony, Node(stb, Nil, Node(cast, Nil, Nil)), Nil)), Nil)
  {
    var top := PANEL_CONFIG.profile.children;
    var audio := top[0];
    var castOnly := audio.children[..1];
    assert castOnly[..0] == [];
    assert BuildChildren(castOnly) == Node(cast, Nil, Nil);
    assert BuildChildren(audio.children) == Node(stb, Nil, Node(cast, Nil, Nil));
    var audioOnly := top[..1];
    assert audioOnly[..0] == [];
    assert BuildChildren(audioOnly) == Node(sony, BuildChildren(audio.children), Nil);
    assert BuildChildren(top) == Node(ps3, Nil, BuildChildren(audioOnly));
  }

  lemma PlaybackServed(pool: Pool)
    ensures !pool[4] ==> FirstFit(pool, Playback) == 4 && Taken(pool, Playback) == pool[4 := true]
    ensures pool[4] && !pool[8] ==> FirstFit(pool, Playback) == 8 && Taken(pool, Playback) == pool[8 := true]
    ensures pool[4] && pool[8] && !pool[11] ==> FirstFit(pool, Playback) == 11 && Taken(pool, Playback) == pool[11 := true]
    ensures pool[4] && pool[8] && pool[11] ==> FirstFit(pool, Playback) == 15 && Taken(pool, Playback) == pool
  {
    var last: seq<Slot> := [11];
    var later: seq<Slot> := [8, 11];
    assert [4, 8, 11][1..] == later && later[1..] == last && last[1..] == [];
    assert FirstFree(pool, last) == if pool[11] then 15 else 11;
    assert FirstFree(pool, later) == if pool[8] then FirstFree(pool, last) else 8;
    AllocatedAddress(pool, Playback);
  }

  lemma AudioSystemServed(pool: Pool)
    ensures !pool[5] ==> FirstFit(pool, AudioSystem) == 5 && Taken(pool, AudioSystem) == pool[5 := true]
  {
    AllocatedAddress(pool, AudioSystem);
  }

  /** The pass over a chain of children, one device at a time. */
  lemma ServeFirst(d: Info, kids: Tree<Info>, rest: Tree<Info>, parent: Word, emulated: string, pool: Pool)
    requires d.la == -1
    ensures var pa := Extend(parent, d.port);
            var siblings := Pass(rest, Some(parent), emulated, Taken(pool, d.kind));
            var children := Pass(kids, Some(pa), emulated, siblings.pool);
            Pass(Node(d, kids, rest), Some(parent), emulated, pool) ==
            Allocation(Node(d.(pa := pa, la := FirstFit(pool, d.kind)), children.tree, siblings.tree), children.pool)
  {
  }

  /** The two devices below the audio system. */
  lemma PanelBelowSony(stb: Info, cast: Info, emulated: string, pool: Pool)
    requires stb == Info("IPSTB", Playback, 2, 0, 0xFFFF, -1) && cast == Info("Chromecast", Playback, 1, 0, 0xFFFF, -1)
    requires pool[4] && !pool[8] && !pool[11]
    ensures Pass(Node(stb, Nil, Node(cast, Nil, Nil)), Some(0x1000), emulated, pool) ==
            Allocation(PANEL_NETWORK.kids.rest.kids, pool[8 := true][11 := true])
  {
    ExtendIsSum(0x1000, 1);
    ExtendIsSum(0x1000, 2);
    PlaybackServed(pool);
    PlaybackServed(pool[8 := true]);
    ServeFirst(stb, Nil, Node(cast, Nil, Nil), 0x1000, emulated, pool);
    ServeFirst(cast, Nil, Nil, 0x1000, emulated, pool[8 := true]);
  }

  const PANEL_POOL: Pool := FRESH_POOL[4 := true][5 := true][8 := true][11 := true]

  /** The audio system, and what is below it. */
  lemma PanelSony(sony: Info, stb: Info, cast: Info, emulated: string, pool: Pool)
    requires sony == Info("Sony", AudioSystem, 1, 2, 0xFFFF, -1)
    requires stb == Info("IPSTB", Playback, 2, 0, 0xFFFF, -1) && cast == Info("Chromecast", Playback, 1, 0, 0xFFFF, -1)
    requires pool == FRESH_POOL[4 := true]
    ensures Pass(Node(sony, Node(stb, Nil, Node(cast, Nil, Nil)), Nil), Some(0), emulated, pool) ==
            Allocation(PANEL_NETWORK.kids.rest, PANEL_POOL)
  {
    ExtendIsSum(0, 1);
    AudioSystemServed(pool);
    PanelBelowSony(stb, cast, emulated, pool[5 := true]);
    ServeFirst(sony, Node(stb, Nil, Node(cast, Nil, Nil)), Nil, 0, emulated, pool);
  }

  /** The player, before the rest of the panel's children. */
  lemma PanelPlayer(ps3: Info, rest: Tree<Info>, emulated: string, pool: Pool)
    requires ps3 == Info("SONY PS3", Playback, 2, 0, 0xFFFF, -1) && !pool[4]
    requires Pass(rest, Some(0), emulated, pool[4 := true]) == Allocation(PANEL_NETWORK.kids.rest, PANEL_POOL)
    ensures Pass(Node(ps3, Nil, rest), Some(0), emulated, pool) == Allocation(PANEL_NETWORK.kids, PANEL_POOL)
  {
    ExtendIsSum(0, 2);
    PlaybackServed(pool);
    ServeFirst(ps3, Nil, rest, 0, emulated, pool);
  }

  /** Opening gives these addresses, and the panel, being emulated, has 15 until the application adds 0. */
  lemma PanelOpened() returns (v: View)
    ensures Opened(PANEL_CONFIG) == Some(v) && v == View(PANEL_NETWORK, Some(Here), 3, PANEL_POOL, false, [], {})
  {
    var built := Build(PANEL_CONFIG.profile);
    var ps3, sony := Info("SONY PS3", Playback, 2, 0, 0xFFFF, -1), Info("Sony", AudioSystem, 1, 2, 0xFFFF, -1);
    var stb, cast := Info("IPSTB", Playback, 2, 0, 0xFFFF, -1), Info("Chromecast", Playback, 1, 0, 0xFFFF, -1);
    PanelBuilt(ps3, sony, stb, cast);
    PanelSony(sony, stb, cast, PANEL_CONFIG.emulated, FRESH_POOL[4 := true]);
    PanelPlayer(ps3, Node(sony, Node(stb, Nil, Node(cast, Nil, Nil)), Nil), PANEL_CONFIG.emulated, FRESH_POOL);
    PassFromRoot(built, PANEL_CONFIG.emulated, FRESH_POOL);
    assert Find(built, PANEL_CONFIG.emulated) == Some(Here);
    v := Opened(PANEL_CONFIG).value;
  }

  const PANEL_READY: View :=
    View(PANEL_NETWORK.(val := PANEL_NETWORK.val.(la := 0)), Some(Here), 3, PANEL_POOL, true, [], {})

  /** The panel with its callback set and its logical address added. */
  lemma PanelReady() returns (v: View)
    ensures Opened(PANEL_CONFIG).Some? && Safe(Opened(PANEL_CONFIG).value, [SetCallback(true), Add(0)])
    ensures v == Run(Opened(PANEL_CONFIG).value, [SetCallback(true), Add(0)])
    ensures v == PANEL_READY && Tx(v) == Success
  {
    var u := PanelOpened();
    v := PANEL_READY;
    PanelSteps(u);
    TwoSteps(u, SetCallback(true), Add(0));
  }

  lemma PanelSteps(u: View)
    requires u == View(PANEL_NETWORK, Some(Here), 3, PANEL_POOL, false, [], {})
    ensures var called := Step(u, SetCallback(true)).0;
            Defined(called, Add(0)) && Step(called, Add(0)).0 == PANEL_READY && Tx(PANEL_READY) == Success
  {
  }

  lemma TwoSteps(v: View, first: Op, second: Op)
    requires Defined(v, first) && Defined(Step(v, first).0, second)
    ensures Safe(v, [first, second]) && Run(v, [first, second]) == Step(Step(v, first).0, second).0
  {
    assert [first, second][1..] == [second] && [second][1..] == [];
    var w := Step(v, first).0;
    assert Safe(w, [second]) && Run(w, [second]) == Step(w, second).0;
  }

  /** The network has a first device of this name, with these addresses. */
  predicate Located(t: Tree<Info>, name: string, pa: Word, la: Address) {
    Find(t, name).Some? && At(t, Find(t, name).value).pa == pa && At(t, Find(t, name).value).la == la
  }

  /** The addresses the validation data expects. */
  predicate PanelLocated(t: Tree<Info>) {
    && Located(t, "TVPanel", 0x0000, 0) && Located(t, "SONY PS3", 0x2000, 4)
    && Located(t, "Sony", 0x1000, 5) && Located(t, "IPSTB", 0x1200, 8)
  }

  lemma PanelNames(t: Tree<Info>)
    requires t == PANEL_NETWORK.(val := PANEL_NETWORK.val.(la := 0))
    ensures PanelLocated(t)
  {
    var sony := t.kids.rest;
    assert Find(sony.kids, "IPSTB") == Some(Here);
    assert Find(sony, "IPSTB") == Some(Down(Here)) && Find(sony, "Sony") == Some(Here);
    assert Find(t.kids, "IPSTB") == Some(Across(Down(Here))) && Find(t.kids, "Sony") == Some(Across(Here));
    assert Find(t.kids, "SONY PS3") == Some(Here);
    assert Find(t, "SONY PS3") == Some(Down(Here)) && Find(t, "Sony") == Some(Down(Across(Here)));
    assert Find(t, "IPSTB") == Some(Down(Across(Down(Here))));
  }

  function CommandOp(command: string, initiator: string, destination: string, osdName: seq<Byte>): (op: Op) {
    Process(Message(CommandType, CommandText(command, initiator, destination, osdName)))
  }

  /** The bytes of a command between two devices at known addresses. */
  lemma Example(v: View, text: Payload, pa: Word, from: Address, to: Address, operand: seq<Byte>, bytes: seq<Byte>)
    requires Mapped(v) && v.callback && text.CommandText? && OpcodeOf(text.command) != -1 && |text.osdName| <= 62
    requires Located(v.tree, text.initiator, pa, from) && from != -1 && to != -1
    requires if text.destination == "broadcast" then to == 15
             else Find(v.tree, text.destination).Some? && At(v.tree, Find(v.tree, text.destination).value).la == to
    requires operand == (if OpcodeOf(text.command) in {0x82, 0x9D} then [pa / 0x100, pa % 0x100]
                         else if OpcodeOf(text.command) == 0x47 then text.osdName
                         else [])
    requires bytes == [16 * from + to, OpcodeOf(text.command)] + operand
    ensures Step(v, Process(Message(CommandType, text))).0.trace == v.trace + [Rx(bytes, |bytes|)]
  {
    CommandBytes(v, text, At(v.tree, Find(v.tree, text.initiator).value), to, operand);
  }

  /** A source's ActiveSource and InactiveSource, to the panel, to another device and to all. */
  lemma PanelSources(v: View)
    requires Mapped(v) && v.callback && PanelLocated(v.tree)
    ensures Step(v, CommandOp("ActiveSource", "SONY PS3", "TVPanel", [])).0.trace == v.trace + [Rx([0x40, 0x82, 0x20, 0x00], 4)]
    ensures Step(v, CommandOp("InactiveSource", "SONY PS3", "TVPanel", [])).0.trace == v.trace + [Rx([0x40, 0x9D, 0x20, 0x00], 4)]
    ensures Step(v, CommandOp("ActiveSource", "SONY PS3", "Sony", [])).0.trace == v.trace + [Rx([0x45, 0x82, 0x20, 0x00], 4)]
    ensures Step(v, CommandOp("ActiveSource", "SONY PS3", "broadcast", [])).0.trace == v.trace + [Rx([0x4F, 0x82, 0x20, 0x00], 4)]
  {
    UsedOpcodes();
    Example(v, CommandText("ActiveSource", "SONY PS3", "TVPanel", []), 0x2000, 4, 0, [0x20, 0x00], [0x40, 0x82, 0x20, 0x00]);
    Example(v, CommandText("InactiveSource", "SONY PS3", "TVPanel", []), 0x2000, 4, 0, [0x20, 0x00], [0x40, 0x9D, 0x20, 0x00]);
    Example(v, CommandText("ActiveSource", "SONY PS3", "Sony", []), 0x2000, 4, 5, [0x20, 0x00], [0x45, 0x82, 0x20, 0x00]);
    Example(v, CommandText("ActiveSource", "SONY PS3", "broadcast", []), 0x2000, 4, 15, [0x20, 0x00], [0x4F, 0x82, 0x20, 0x00]);
  }

  /** Commands without operand, and one with a name. */
  lemma PanelOthers(v: View)
    requires Mapped(v) && v.callback && PanelLocated(v.tree)
    ensures Step(v, CommandOp("ImageViewOn", "SONY PS3", "TVPanel", [])).0.trace == v.trace + [Rx([0x40, 0x04], 2)]
    ensures Step(v, CommandOp("TextViewOn", "IPSTB", "TVPanel", [])).0.trace == v.trace + [Rx([0x80, 0x0D], 2)]
    ensures Step(v, CommandOp("SetOsdName", "IPSTB", "TVPanel", [0x49, 0x50, 0x53, 0x54, 0x42])).0.trace ==
            v.trace + [Rx([0x80, 0x47, 0x49, 0x50, 0x53, 0x54, 0x42], 7)]
  {
    var name: seq<Byte> := [0x49, 0x50, 0x53, 0x54, 0x42];
    UsedOpcodes();
    Example(v, CommandText("ImageViewOn", "SONY PS3", "TVPanel", []), 0x2000, 4, 0, [], [0x40, 0x04]);
    Example(v, CommandText("TextViewOn", "IPSTB", "TVPanel", []), 0x1200, 8, 0, [], [0x80, 0x0D]);
    Example(v, CommandText("SetOsdName", "IPSTB", "TVPanel", name), 0x1200, 8, 0, name, [0x80, 0x47] + name);
    assert [0x80, 0x47] + name == [0x80, 0x47, 0x49, 0x50, 0x53, 0x54, 0x42];
  }

  /** So it is after opening, setting a callback and adding address 0; and the panel can transmit. */
  lemma PanelWorks() returns (v: View)
    ensures Opened(PANEL_CONFIG).Some? && Safe(Opened(PANEL_CONFIG).value, [SetCallback(true), Add(0)])
    ensures v == Run(Opened(PANEL_CONFIG).value, [SetCallback(true), Add(0)])
    ensures Mapped(v) && v.callback && v.trace == [] && PanelLocated(v.tree) && Tx(v) == Success
  {
    v := PanelReady();
    PanelNames(v.tree);
  }

  /** The announcement of a playback device at 3.0.0.0 that was given no address of its class. */
  lemma UnregisteredAnnounced(rx: Rx, d: Info)
    requires Announces(rx, d) && d.la == 15 && d.pa == 0x3000 && d.kind == Playback
    ensures rx == Rx([0xFF, 0x84, 0x30, 0x00, 0x04], 5)
  {
    DecodedBytes(rx.bytes, 15, 15, 0x84, [0x30, 0x00, 0x04]);
    assert rx.bytes == [0xFF, 0x84, 0x30, 0x00, 0x04];
  }

  /** A playback device added on port 3 of the root finds its class full: it gets 15, at 3.0.0.0. */
  lemma FullClassServed(v: View, profile: Profile, parent: string) returns (rx: Rx, d: Info)
    requires Alive(v) && v.callback && Assigned(v.tree.kids) && v.tree.val.numberChildren < v.numPorts
    requires v.pool[4] && v.pool[8] && v.pool[11] && Find(v.tree, parent) == Some(Here)
    requires profile.kind == Playback && profile.port == 3
    ensures Step(v, AddOp(profile, parent)).0.trace == v.trace + [rx]
    ensures Announces(rx, d) && d.la == FirstFit(v.pool, Playback) && d.kind == Playback
    ensures d.pa == AddressOf(PortPath(v.tree, Here) + [profile.port])
  {
    AddIsAnnounced(v, profile, parent);
    var w := Step(v, AddOp(profile, parent)).0;
    d := At(w.tree, Inserted(Here));
    rx :| w.trace == v.trace + [rx] && Announces(rx, d);
  }

  lemma AtPortThree(path: seq<Word>)
    requires path == [3]
    ensures AddressOf(path) == 0x3000
  {
    AddressInHex(path);
  }

  /** So it is announced. */
  lemma FullClassAnnounced(v: View, profile: Profile, parent: string)
    requires Alive(v) && v.callback && Assigned(v.tree.kids) && v.tree.val.numberChildren < v.numPorts
    requires v.pool[4] && v.pool[8] && v.pool[11] && Find(v.tree, parent) == Some(Here)
    requires profile.kind == Playback && profile.port == 3
    ensures Step(v, AddOp(profile, parent)).0.trace == v.trace + [Rx([0xFF, 0x84, 0x30, 0x00, 0x04], 5)]
  {
    var rx, d := FullClassServed(v, profile, parent);
    PlaybackServed(v.pool);
    AtPortThree(PortPath(v.tree, Here) + [profile.port]);
    UnregisteredAnnounced(rx, d);
  }

  lemma PanelTakesDevice(v: View, profile: Profile)
    requires v == PANEL_READY && profile == Profile("TestDevice", Playback, 3, [])
    ensures Defined(v, AddOp(profile, "TVPanel"))
    ensures Step(v, AddOp(profile, "TVPanel")).0.trace == [Rx([0xFF, 0x84, 0x30, 0x00, 0x04], 5)]
  {
    PanelIsFull(v);
    FullClassAnnounced(v, profile, "TVPanel");
  }

  lemma PanelIsFull(v: View)
    requires v == PANEL_READY
    ensures Alive(v) && v.callback && v.trace == [] && Assigned(v.tree.kids) && v.tree.val.numberChildren < v.numPorts
    ensures v.pool[4] && v.pool[8] && v.pool[11] && Find(v.tree, "TVPanel") == Some(Here)
  {
  }
}
