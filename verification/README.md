# A verified model of ns2-gea's class graph and 802.11 MAC

This project models, in Dafny 4.11, the parts of the ns2-gea network simulator where state is
changed in several places and has to stay consistent:

- **OTcl's class graph** (`otcl.c`). Classes with mutable superclass and subclass lists, a colour and
  one `order` slot, which caches the precedence list and is borrowed for sorts in the opposite
  direction. `Digraph.dfy` holds the graph theory and a colour-free reference sort, `ClassStore.dfy`
  every operation as a function on a store value, `ClassInvariant.dfy` and `ClassRuns.dfy` what they
  keep and decide, `ClassSpoiled.dfy` what happens after the one request that breaks the invariant,
  `OTcl.dfy` the in-place objects, proved to compute the store functions, and `Dispatch.dfy` method
  dispatch and `next`.
- **802.11 medium access** (`dcf.cc`, `mac-low.cc`, `hdr-mac-80211.cc`). `ChannelAccess.dfy` has the lazily
  kept backoff and the access timer, `Nav.dfy` the NAV kept twice, `Durations.dfy` the duration fields of
  an RTS/CTS/DATA/ACK exchange (sections 9.2.5.2, 9.2.5.4 and 9.2.10 of IEEE 802.11-1999).
- **Reception** (`phy-ber.cc`). `Interference.dfy` has the list of noise changes and the cutting of a
  packet into chunks.
- **HCCA admission control** (`qap-scheduler.cc`). `Admission.dfy`.
- **Fragmentation, acknowledgement and reassembly** (`dca-txop.cc`, `mac-low.cc`, `mac-rx-middle.cc`).
  `Fragments.dfy` cuts and reassembles, `Delivery.dfy` adds retries over a lossy channel.
- **ARF and AARF rate control** (`arf-mac-stations.cc`, `aarf-mac-stations.cc`). `RateControl.dfy`.
- **The EDCA parameter block** (`mac-dcf-parameters.cc`, `qap-scheduler.cc`, `mac-high-qsta.cc`).
  `EdcaParameters.dfy`.

`Prelude.dfy` holds what they share. Code that updates objects is modelled as classes and methods with
loops; each method is proved against a function on values, and the theorems are about those functions.
Times are reals, so rounding by floating point is not modelled; rounding that the code does itself
(`lrint`, `floor`, the 1e-10 round-to-zero, bit fields) is.

## Main results

- *Class graph.* From the empty store, after any sequence of class creations, superclass requests
  (granted or refused), queries and destructions, every cached precedence list equals a fresh sort of
  the current graph, the graph is acyclic, the two kinds of lists mirror each other without duplicates,
  and no class is left coloured. Each step keeps this **if and only if** it is not a superclass request in
  dependence order that names the class itself somewhere but last.
- *Superclass requests* are transactions: the verdict is a function of the old graph, a refusal restores
  the superclass list in its old order, an acceptance puts the requested classes into the precedence list
  in the requested order.
- *Backoff conservation.* Over any orderly run of notifications the backoff left is the backoff drawn last
  less the time spent past the access-granted instants, however often it is brought up to date on the way.
- *Interference.* On every chunk the noise used is the direct sum of the other powers on the air plus the
  power of events that start together with the packet; the chunks tile the packet.
- *Admission.* Every run of requests keeps every promise made to admitted streams, and the scheduler's two
  assertions cannot fire.
- *Delivery.* Over a channel that loses any frames and acknowledgements, a session of acknowledged MSDUs is
  passed up complete, in order, once each; which MSDUs can be acknowledged at all is stated exactly.

## Where the code falls short

Seven properties one would expect turned out false of the code; each is stated with the exact condition under
which it holds.

- `otcl.c:164` returns before the colours are reset. `superclass {... c ...}` on c itself, in order and c not
  last, leaves BLACK the classes named after c and all they inherit from, and their subclasses then get
  precedence lists without them: `ClassRuns.StepKeepsInv`, `ClassSpoiled.SpoiledExactly`,
  `ClassSpoiled.SpoiledStoreMisleads`, `ClassSpoiled.SpoiledExample`.
- `dcf.cc:377` takes a reception that starts when the previous one ended for an ended one:
  `ChannelAccess.ReceptionCovered`.
- `mac-low.cc:492-500` and `dcf.cc:448-449` disagree about the NAV after a CF-Poll:
  `Nav.MacLow.NotifyCfPoll`.
- `phy-ber.cc:268-276` counts an event twice that starts with the packet: `Interference.NoiseRightIff`.
- `mac-rx-middle.cc:200-237`: a receiver left waiting by a sender that gave up drops everything until an MSDU
  of the same number with enough fragments comes: `Fragments.NextDeliveredIff`, `Fragments.RecoversIff`,
  `Fragments.GivenUpThenStream`.
- `mac-low.cc:761` takes an announced next size of zero for no next frame, and `dca-txop.cc:201` announces zero
  before the empty last fragment of an MSDU whose size is a multiple of the threshold. Its sender stops there for
  good: `Delivery.CanGetThroughIff`, `Delivery.ExactMultipleNeverDelivered`. The built-in threshold of 2000 with
  MSDUs of at most 2304 octets does not meet this; every threshold up to half the largest MSDU does.
- `arf-mac-stations.cc:173` compares the timer for equality, and a lone failure can step over it:
  `RateControl.TimerOvertaken`, `RateControl.TimerRule`, `RateControl.TimerNeverFires`.

The comment above `ArfMacStation::reportDataFailed` says recovery mode starts after a failure; in the code it
starts with the climb. The model follows the code.

## Model

| member | source | states |
|---|---|---|
| `Digraph.LineariseCorrect` | ns2-gea/otcl-1.13/otcl.c:150-184 | the sort succeeds exactly when no cycle is reachable from the base; the list then holds exactly the reachable classes, once each, the base first, every class before all its successors |
| `Digraph.VisitSound` | ns2-gea/otcl-1.13/otcl.c:161-178 | a successful visit extends an ordered list by a prefix, keeps it ordered and reports nothing that is on the stack |
| `Digraph.VisitFails` | ns2-gea/otcl-1.13/otcl.c:164-172 | a visit fails only because a cycle is reachable, whatever classes are being passed over |
| `Digraph.VisitAdds` | ns2-gea/otcl-1.13/otcl.c:162-178 | a visit reports only classes reachable from where it started |
| `Digraph.OrderedBefore` | ns2-gea/otcl-1.13/otcl.c:174-178 | in the list every class stands before each of its successors |
| `Digraph.LineariseCongruent` | ns2-gea/otcl-1.13/otcl.c:150-184 | the precedence list depends only on the superclass lists of the reachable classes |
| `Digraph.SuccessorsReversed` | ns2-gea/otcl-1.13/otcl.c:162-178 | direct successors of the base appear in the reverse of their listed order if none reaches a later one |
| `Digraph.AcyclicMirror` | ns2-gea/otcl-1.13/otcl.c:265-286 | lists that mirror each other are acyclic together, so the downward sort succeeds when the upward one does |
| `ClassInvariant.SortFromClean` | ns2-gea/otcl-1.13/otcl.c:150-184 | from an all-WHITE graph the coloured sort is the reference linearisation, and it leaves a class BLACK exactly when the base is in its own list, not first, and the classes listed before it sort without meeting a cycle |
| `ClassInvariant.WhereItStops` | ns2-gea/otcl-1.13/otcl.c:164-172 | at which entry the loop over the base's list stops decides whether the colour reset is skipped |
| `ClassInvariant.ComputeKeepsInv` | ns2-gea/otcl-1.13/otcl.c:198-205 | using a precedence list fills the slot with the linearisation, changes nothing else and keeps the invariant |
| `ClassInvariant.FlushAcyclic` | ns2-gea/otcl-1.13/otcl.c:220-237 | without a cycle, flushing empties exactly the slots of the class and of all classes below it |
| `ClassInvariant.FlushCyclic` | ns2-gea/otcl-1.13/otcl.c:220-237 | with a cycle through the class, flushing empties only its own slot and leaves no colour behind |
| `ClassInvariant.ReplacedAcyclic` | ns2-gea/otcl-1.13/otcl.c:1632-1651 | replacing a superclass list makes a cycle exactly when a new superclass already reaches the class, and the cycle runs through it |
| `ClassInvariant.UnlinkSupersExact` | ns2-gea/otcl-1.13/otcl.c:1143-1143 | the unlink loop ends with an empty superclass list and removes the class from every subclass list, nothing else |
| `ClassInvariant.UnlinkSubsExact` | ns2-gea/otcl-1.13/otcl.c:1144-1144 | the unlink loop ends with an empty subclass list and removes the class from every superclass list, nothing else |
| `ClassInvariant.AddSupersExact` | ns2-gea/otcl-1.13/otcl.c:1645-1646 | adding a request one by one leaves it reversed in front of the superclass list, and the class in front of each subclass list |
| `ClassInvariant.RemoveSuperLinked` | ns2-gea/otcl-1.13/otcl.c:289-319 | removing a link keeps both kinds of lists duplicate-free and mirrored |
| `ClassInvariant.AddSuperLinked` | ns2-gea/otcl-1.13/otcl.c:265-286 | adding a link keeps both kinds of lists duplicate-free and mirrored |
| `ClassRuns.CheckExact` | ns2-gea/otcl-1.13/otcl.c:1613-1624 | the dependence check refuses exactly the requests that list a class before one of its own descendants, and keeps the invariant |
| `ClassRuns.RelinkAccepted` | ns2-gea/otcl-1.13/otcl.c:1632-1665 | a cycle-free request is accepted: new superclass list, every stale cache gone, the new precedence list a fresh sort |
| `ClassRuns.RelinkRefused` | ns2-gea/otcl-1.13/otcl.c:1651-1661 | a cyclic request is refused: superclass lists back in their exact old order, subclass lists back with the class in front, caches right again though nothing was flushed; and when a colour is left behind |
| `ClassRuns.SuperClassTransaction` | ns2-gea/otcl-1.13/otcl.c:1613-1665 | the whole request: its verdict read off the old graph, the new or restored lists, coherent caches, and colours left behind exactly when the class is named inside its own request |
| `ClassRuns.LocalPrecedence` | ns2-gea/otcl-1.13/otcl.c:1613-1651 | after an accepted request the requested classes stand in the precedence list in the requested order |
| `ClassRuns.InfoSuperclassExact` | ns2-gea/otcl-1.13/otcl.c:1694-1710 | the answer is reachability in the superclass graph; the invariant is kept |
| `ClassRuns.InfoSubclassExact` | ns2-gea/otcl-1.13/otcl.c:1726-1745 | the borrowed slot comes back untouched; the answer is whether the asked class reaches this one upwards |
| `ClassRuns.CreateKeepsInv` | ns2-gea/otcl-1.13/otcl.c:1047-1062 | a new class keeps the invariant and all existing caches right |
| `ClassRuns.DestroyKeepsInv` | ns2-gea/otcl-1.13/otcl.c:1142-1144 | after destruction no class mentions the destroyed one, all other links are unchanged, caches are coherent |
| `ClassRuns.StepKeepsInv` | ns2-gea/otcl-1.13/otcl.c:1632-1665 | each operation keeps the invariant if and only if it is not a superclass request in dependence order that names the class itself anywhere but last |
| `ClassRuns.RunsKeepInv` | ns2-gea/otcl-1.13/otcl.c:198-237 | every run keeps cache coherence, acyclicity, mirrored duplicate-free links and colour hygiene |
| `ClassRuns.EmptyStoreOk` | ns2-gea/otcl-1.13/otcl.c:1047-1062 | the invariant holds before the first class exists, so it holds in every reachable state |
| `ClassSpoiled.BlackIsOmitted` | ns2-gea/otcl-1.13/otcl.c:161-183 | a class left BLACK is missing from every precedence list computed afterwards, although the sort succeeds |
| `ClassSpoiled.SpoiledExactly` | ns2-gea/otcl-1.13/otcl.c:164-172 | after a spoiling request exactly the classes named after the class itself, and everything they inherit from, are left BLACK; there is at least one |
| `ClassSpoiled.SpoiledStoreMisleads` | ns2-gea/otcl-1.13/otcl.c:164-172 | every class with such a class in its heritage and no list cached then computes a precedence list without it, unlike a fresh sort |
| `ClassSpoiled.SpoiledExample` | ns2-gea/otcl-1.13/otcl.c:1613-1665 | two unrelated classes: the refused request `1 superclass {1 2}`, then the accepted `1 superclass 2`, whose precedence list lacks the only superclass |
| `OTcl.TopoSort` | ns2-gea/otcl-1.13/otcl.c:150-184 | the coloured in-place sort computes the reference visit, keeps the colours telling stack, reported and untouched classes apart, and says exactly which classes stay BLACK at the top; terminates by the classes not on the stack |
| `OTcl.VisitList` | ns2-gea/otcl-1.13/otcl.c:162-173 | the loop over the successors, and where and why it stopped |
| `OTcl.Follow` | ns2-gea/otcl-1.13/otcl.c:164-166 | one successor: GRAY stops, WHITE is sorted, BLACK is passed over |
| `OTcl.Leave` | ns2-gea/otcl-1.13/otcl.c:164-183 | the exits of the sort: colour of the class, the slot, and the reset at the base |
| `OTcl.Whiten` | ns2-gea/otcl-1.13/otcl.c:180-181 | the reset loop whitens exactly the reported classes |
| `OTcl.ComputeOrder` | ns2-gea/otcl-1.13/otcl.c:198-217 | the slot is filled by a sort if empty and emptied again if the sort fails, as the store function says |
| `OTcl.FlushPrecedences` | ns2-gea/otcl-1.13/otcl.c:220-237 | the represented store becomes the flushed store |
| `OTcl.AS` | ns2-gea/otcl-1.13/otcl.c:265-273 | prepends unless present |
| `OTcl.RS` | ns2-gea/otcl-1.13/otcl.c:289-306 | removes the first occurrence and reports whether there was one |
| `OTcl.LinkSuper` | ns2-gea/otcl-1.13/otcl.c:275-286 | both lists are updated together |
| `OTcl.UnlinkSuper` | ns2-gea/otcl-1.13/otcl.c:309-319 | both lists are updated together; reports whether both held the entry |
| `OTcl.UnlinkAllSupers` | ns2-gea/otcl-1.13/otcl.c:1632-1644 | terminates with the store's unlinked form and returns the old list reversed |
| `OTcl.UnlinkAllSubs` | ns2-gea/otcl-1.13/otcl.c:1144-1144 | terminates with the store's unlinked form |
| `OTcl.LinkAllSupers` | ns2-gea/otcl-1.13/otcl.c:1645-1646 | the request is added entry by entry |
| `OTcl.CheckOrder` | ns2-gea/otcl-1.13/otcl.c:1613-1624 | the double loop computes the store's check, including the precedence list it still computes after a reversal is found |
| `OTcl.SetSuperclass` | ns2-gea/otcl-1.13/otcl.c:1613-1665 | the in-place transaction computes the store's; from an invariant state its result is the verdict read off the old graph and the invariant is kept exactly when the class is not named inside the request |
| `OTcl.AskSuperclass` | ns2-gea/otcl-1.13/otcl.c:1694-1710 | computes the store's query; the invariant is kept |
| `OTcl.AskSubclass` | ns2-gea/otcl-1.13/otcl.c:1726-1745 | computes the store's query, saving and restoring the borrowed slot; the invariant is kept |
| `OTcl.NewClass` | ns2-gea/otcl-1.13/otcl.c:1047-1062 | the store gains the class; the invariant is kept |
| `OTcl.DestroyClass` | ns2-gea/otcl-1.13/otcl.c:1142-1144 | the store loses the class; the invariant is kept |
| `Dispatch.SearchCMethod` | ns2-gea/otcl-1.13/otcl.c:372-382 | finds the class that defines the method and has no definer before it in the list, none exactly if nothing in the list defines it |
| `Dispatch.NextMethod` | ns2-gea/otcl-1.13/otcl.c:1946-1957 | finds the first definer in what follows the first place of the calling class, in the whole list if called from an object's own procedure, and nothing if the calling class is not in the list |
| `Dispatch.DispatchMessage` | ns2-gea/otcl-1.13/otcl.c:400-401 | the object's own procedure exactly if it has one of that name, else the first definer in the list |
| `Dispatch.NextsExact` | ns2-gea/otcl-1.13/otcl.c:1926-1965 | repeated next runs exactly the defining classes still ahead, in order, and stops |
| `Dispatch.ChainExact` | ns2-gea/otcl-1.13/otcl.c:400-401 | all that runs: the own procedure, if there is one, as the first entry, then the defining classes of the list in order |
| `Dispatch.SendMessage` | ns2-gea/otcl-1.13/otcl.c:1926-1965 | dispatch followed by next until it stops launches exactly that chain, and stops |
| `Dispatch.ChainRunsHeritage` | ns2-gea/otcl-1.13/otcl.c:400-401 | in every reachable state, along the list in the class's slot, which every next finds unchanged, a message passed on by next runs the object's own procedure first, exactly if it has one, then the method of every class in the heritage that defines it, once each, subclasses before superclasses |
| `ChannelAccess.AccessGrantedStart` | ns2-gea/ns-2/80211/dcf.cc:369-392 | never earlier than the interframe space after the latest transmission, NAV and reception, with EIFS after a failed one |
| `ChannelAccess.BalancedObserved` | ns2-gea/ns-2/80211/dcf.cc:418-439 | whenever the lazy backoff is brought up to date it equals the drawn backoff less the eligible time |
| `ChannelAccess.StepBalanced` | ns2-gea/ns-2/80211/dcf.cc:462-502 | every notification keeps the books balanced |
| `ChannelAccess.RunBalanced` | ns2-gea/ns-2/80211/dcf.cc:342-502 | over any orderly run, receptions cancelled by a transmission included, the books stay balanced |
| `ChannelAccess.BackoffConserved` | ns2-gea/ns-2/80211/dcf.cc:342-439 | from switching on, the backoff left at any time is the one drawn last less the time past the access-granted instants, up to the 1e-10 rounding |
| `ChannelAccess.PollHarmless` | ns2-gea/ns-2/80211/dcf.cc:418-439 | one extra update between two medium events changes neither the backoff nor the delay found later |
| `ChannelAccess.PollsDoNotMatter` | ns2-gea/ns-2/80211/dcf.cc:394-439 | over any orderly run, taking out all extra updates, wherever they stand, changes neither the backoff nor the delay found later |
| `ChannelAccess.SameButForPolls` | ns2-gea/ns-2/80211/dcf.cc:394-439 | two runs that differ only in extra updates leave the same medium, backoff and delay to be found |
| `ChannelAccess.PollPutIn` | ns2-gea/ns-2/80211/dcf.cc:394-403 | a run with one update put in anywhere differs from the run only so |
| `ChannelAccess.DelayCountsDown` | ns2-gea/ns-2/80211/dcf.cc:406-417 | without medium events the delay falls with the clock and is zero when it has run out |
| `ChannelAccess.NoDelayIsSafe` | ns2-gea/ns-2/80211/dcf.cc:406-417 | no delay means no backoff left and every interframe space over, up to the rounding |
| `ChannelAccess.ReceptionCovered` | ns2-gea/ns-2/80211/dcf.cc:377-385 | the wait covers a new reception if and only if the previous one was reported ended strictly before it starts, or the wait after that end, a transmission or the NAV happens to last as long |
| `ChannelAccess.GrantedIsLatest` | ns2-gea/ns-2/80211/dcf.cc:369-392 | the access-granted instant is the latest of three waits and no later: DIFS past the latest transmission, DIFS past the NAV, and past the latest reception DIFS if good or still running, EIFS if failed |
| `ChannelAccess.WaitAfterRxEnd` | ns2-gea/ns-2/80211/dcf.cc:487-494 | a reception that fails at t makes the wait last until EIFS past t, a good one until DIFS past t, unless a transmission or the NAV asks for more |
| `ChannelAccess.WaitAfterRxStart` | ns2-gea/ns-2/80211/dcf.cc:478-486 | a reception started at t makes the wait last until DIFS past its announced end, unless another asks for more |
| `ChannelAccess.WaitAfterTxOrNav` | ns2-gea/ns-2/80211/dcf.cc:462-502 | a transmission or NAV from t on makes the wait last until DIFS past its end, and no longer unless it was longer before |
| `ChannelAccess.WaitAfterNavContinue` | ns2-gea/ns-2/80211/dcf.cc:471-476 | continuing the NAV by x moves its end by exactly x |
| `ChannelAccess.DelayAfterRxEnd` | ns2-gea/ns-2/80211/dcf.cc:406-417 | with nothing else going on, the delay found at the end of a reception is EIFS (failed) or DIFS (good) plus the untouched backoff |
| `ChannelAccess.DelayAtLeast` | ns2-gea/ns-2/80211/dcf.cc:406-417 | whatever else goes on it is never less, nor less than the announced duration plus DIFS plus the backoff after a transmission, NAV or reception starts |
| `ChannelAccess.DrawnSlots` | ns2-gea/ns-2/80211/dcf.cc:276-289 | a drawn number of slots is a backoff of that many times nine microseconds |
| `ChannelAccess.WindowAfterFailures` | ns2-gea/ns-2/80211/dcf.cc:291-306 | after k failures the window is the smallest doubled k times, up to the largest |
| `ChannelAccess.Dcf.GetAccessGrantedStart` | ns2-gea/ns-2/80211/dcf.cc:369-392 | computes the specified instant from the fields |
| `ChannelAccess.Dcf.UpdateBackoff` | ns2-gea/ns-2/80211/dcf.cc:418-439 | computes the specified update and keeps the backoff zero or at least 1e-10 |
| `ChannelAccess.Dcf.GetDelay` | ns2-gea/ns-2/80211/dcf.cc:406-417 | the delay is nonnegative and as specified |
| `ChannelAccess.Dcf.StartBackoff` | ns2-gea/ns-2/80211/dcf.cc:342-368 | the new backoff; access is granted exactly when needed, no timer runs and the medium is clear; a timer is set for the delay |
| `ChannelAccess.Dcf.RequestAccess` | ns2-gea/ns-2/80211/dcf.cc:172-209 | access is granted only when clear, and whenever clear if nothing else is under way; a busy medium without backoff draws a new one |
| `ChannelAccess.Dcf.AccessTimeout` | ns2-gea/ns-2/80211/dcf.cc:249-261 | grants exactly when clear, else sets the timer again for the delay |
| `ChannelAccess.Dcf.NotifyRxStart` | ns2-gea/ns-2/80211/dcf.cc:478-486 | does to backoff and medium what the event does; access is then not granted before DIFS past the announced end |
| `ChannelAccess.Dcf.NotifyRxEnd` | ns2-gea/ns-2/80211/dcf.cc:487-494 | does to backoff and medium what the event does; access is then granted no earlier than EIFS (failed) or DIFS (good) from now on, and exactly then if transmission and NAV are over |
| `ChannelAccess.Dcf.NotifyTxStart` | ns2-gea/ns-2/80211/dcf.cc:495-502 | does to backoff and medium what the event does; access is then not granted before DIFS past the end of the transmission |
| `ChannelAccess.Dcf.NavStarts` | ns2-gea/ns-2/80211/dcf.cc:462-470 | does to backoff and medium what the event does; access is then not granted before DIFS past the NAV |
| `ChannelAccess.Dcf.NavContinues` | ns2-gea/ns-2/80211/dcf.cc:471-476 | does to backoff and medium what the event does; access is then not granted before DIFS past the longer NAV |
| `ChannelAccess.Dcf.NavReset` | ns2-gea/ns-2/80211/dcf.cc:444-461 | the NAV is forgotten and the timer is set again exactly when access has come closer than its end |
| `ChannelAccess.Dcf.ResetCW` | ns2-gea/ns-2/80211/dcf.cc:291-295 | the window is the minimum |
| `ChannelAccess.Dcf.UpdateFailedCW` | ns2-gea/ns-2/80211/dcf.cc:296-306 | the window doubles up to the maximum and stays within bounds |
| `Nav.NavIsLatest` | ns2-gea/ns-2/80211/mac-low.cc:502-517 | over any run of frames the NAV ends at the latest end announced |
| `Nav.NavZeroExact` | ns2-gea/ns-2/80211/mac-low.cc:465-473 | the NAV is zero exactly when every announced end has passed |
| `Nav.MacLow.IsNavZero` | ns2-gea/ns-2/80211/mac-low.cc:465-473 | true exactly when the NAV has ended |
| `Nav.MacLow.NotifyNav` | ns2-gea/ns-2/80211/mac-low.cc:475-518 | the NAV becomes what the frame makes it, and every listener's copy stays equal to it in start and duration |
| `Nav.MacLow.NotifyCfPoll` | ns2-gea/ns-2/80211/mac-low.cc:492-500 | after a CF-Poll the copies agree if and only if the announced duration is zero |
| `Durations.CarriedClose` | ns2-gea/ns-2/80211/hdr-mac-80211.cc:243-252 | a duration in range is carried within half a microsecond, or as zero below one |
| `Durations.DurationsTelescope` | ns2-gea/ns-2/80211/mac-low.cc:264-286 | all four frames of the exchange announce the end of the ACK within 2 microseconds, despite rounding at each hop |
| `Durations.RtsRightIffInRange` | ns2-gea/ns-2/80211/hdr-mac-80211.cc:243-252 | the RTS announces the right end if and only if the exchange fits the 16-bit field |
| `Interference.CalculateNI` | ns2-gea/ns-2/80211/phy-ber.cc:258-286 | the loop collects exactly the changes of the other events during the packet and the initial noise |
| `Interference.CalculatePER` | ns2-gea/ns-2/80211/phy-ber.cc:301-358 | the error rate is one minus the product of the success rates of the chunks |
| `Interference.ProductOfModes` | ns2-gea/ns-2/80211/phy-ber.cc:318-349 | every chunk counts once, in its own mode: for a success rate that depends on the mode alone the product is one power of each |
| `Interference.RateIs` | ns2-gea/ns-2/80211/phy-ber.cc:318-349 | for a rate multiplicative in time, the six-way cut of a stretch contributes the rates of its header time and its payload time |
| `Interference.BreakpointsDoNotMatter` | ns2-gea/ns-2/80211/phy-ber.cc:314-354 | for such a rate an extra breakpoint anywhere does not change the packet's success rate |
| `Interference.TieOrderDoesNotMatter` | ns2-gea/ns-2/80211/phy-ber.cc:282-283 | nor does the order in which the sort leaves changes of the same time |
| `Interference.ChunkStep` | ns2-gea/ns-2/80211/phy-ber.cc:318-349 | the six-way branching multiplies by exactly the chunks of one stretch |
| `Interference.SumUpToPermuted` | ns2-gea/ns-2/80211/phy-ber.cc:282-283 | the sum of the changes up to an instant does not depend on the order in which the list was built |
| `Interference.EventsAddUp` | ns2-gea/ns-2/80211/phy-ber.cc:268-276 | changes up to an instant plus the initial noise make the direct sum at that instant, plus the power of events starting with the packet |
| `Interference.ChunksTile` | ns2-gea/ns-2/80211/phy-ber.cc:314-354 | whatever the breakpoints, the chunks follow each other without gap, each in the mode of its place |
| `Interference.TimesFixed` | ns2-gea/ns-2/80211/phy-ber.cc:314-354 | tiling and modes determine the time spent in each mode |
| `Interference.ChunkNoise` | ns2-gea/ns-2/80211/phy-ber.cc:351-351 | a chunk carries the sum of all changes up to any instant inside it |
| `Interference.NoiseExact` | ns2-gea/ns-2/80211/phy-ber.cc:258-286 | on every chunk of nonzero length, at every instant, the noise used is the direct sum of the other powers plus that of events starting with the packet, for any order of ties in the sort |
| `Interference.NoiseRightIff` | ns2-gea/ns-2/80211/phy-ber.cc:268-276 | the noise used is the direct sum if and only if no other event starts at the same instant as the packet |
| `Interference.ChunksPartition` | ns2-gea/ns-2/80211/phy-ber.cc:301-358 | the chunks partition header start to packet end, with header-mode time equal to the header duration and payload-mode time to the rest |
| `Admission.TxopExact` | ns2-gea/ns-2/80211/qap-scheduler.cc:357-375 | with n the integer nearest to interval times rate over size, the TXOP holds a CF-Poll, a SIFS and n times an ACK and a SIFS, and both n frames of the nominal size and one MSDU of 2304 octets, and is no longer than the larger need |
| `Admission.TxopMonotonic` | ns2-gea/ns-2/80211/qap-scheduler.cc:357-375 | a shorter interval never needs a longer TXOP, rounding to whole frames included |
| `Admission.TotalCapMonotonic` | ns2-gea/ns-2/80211/qap-scheduler.cc:404-414 | nor do all admitted streams together |
| `Admission.Shrink` | ns2-gea/ns-2/80211/qap-scheduler.cc:460-470 | the shrinking loop ends, never below zero, at an interval that is too short or whose TXOP fits |
| `Admission.ShrinkIsFirst` | ns2-gea/ns-2/80211/qap-scheduler.cc:460-470 | it stops at the first step that qualifies |
| `Admission.NewInterval` | ns2-gea/ns-2/80211/qap-scheduler.cc:450-470 | the new interval exceeds neither the current one nor the stream's maximum |
| `Admission.MaximumIntervalIs` | ns2-gea/ns-2/80211/qap-scheduler.cc:389-402 | the stream's maximum interval, or a seventh of its delay bound if it has none |
| `Admission.IncompleteRefused` | ns2-gea/ns-2/80211/qap-scheduler.cc:434-448 | a request lacking a rate, size, allowance or any bound, or with its bounds the wrong way round, is refused and changes nothing |
| `Admission.GrantedIff` | ns2-gea/ns-2/80211/qap-scheduler.cc:449-502 | a complete request is granted exactly if at the first interval, going down by milliseconds, whose TXOP fits 255 units of 32 us, more than 8 ms are left and all TXOPs together take at most 0.4 s and at most 0.4 of the interval |
| `Admission.AddKeepsInv` | ns2-gea/ns-2/80211/qap-scheduler.cc:429-502 | a request, granted or refused, keeps the interval above 0.008 and at most every stream's maximum, the sum within the CAP limit and 0.4 of the interval, every TXOP within 0xff units; the interval never grows |
| `Admission.CapAssertionHolds` | ns2-gea/ns-2/80211/qap-scheduler.cc:412-412 | the assertion in calculateTotalCapTime cannot fire |
| `Admission.TxopLimitFits` | ns2-gea/ns-2/80211/hdr-mac-80211.cc:285-291 | the assertion in setTxopLimit cannot fire for an admitted stream |
| `Admission.RunsKeepInv` | ns2-gea/ns-2/80211/qap-scheduler.cc:429-502 | the same over any run of requests |
| `Admission.EmptyScheduleOk` | ns2-gea/ns-2/80211/qap-scheduler.cc:197-197 | the schedule without streams satisfies the invariant |
| `Admission.QapScheduler.CalculateTotalCapTime` | ns2-gea/ns-2/80211/qap-scheduler.cc:404-414 | sums the TXOPs of all admitted streams, its assertion proved |
| `Admission.QapScheduler.AddTsRequest` | ns2-gea/ns-2/80211/qap-scheduler.cc:429-502 | grants exactly the admissible requests, changes the schedule only then, keeps the invariant |
| `Fragments.SequenceControl` | ns2-gea/ns-2/80211/hdr-mac-80211.cc:253-262 | number and fragment number, ORed into the 16-bit field, come back modulo their widths |
| `Fragments.SizesAddUp` | ns2-gea/ns-2/80211/dca-txop.cc:186-208 | the sizes of the fragments sum to the size of the MSDU |
| `Fragments.AtMost16` | ns2-gea/ns-2/80211/mac-parameters.cc:286-297 | a threshold above a sixteenth of the largest MSDU gives at most 16 fragments |
| `Fragments.NextSizeRight` | ns2-gea/ns-2/80211/dca-txop.cc:219-233 | the size announced for the next fragment is its size |
| `Fragments.Collecting` | ns2-gea/ns-2/80211/mac-rx-middle.cc:200-250 | after any proper prefix of the fragments, each repeated at will, the receiver holds exactly their sizes and has passed nothing up |
| `Fragments.MsduRoundTrip` | ns2-gea/ns-2/80211/mac-rx-middle.cc:187-250 | the frames of an MSDU, each repeated at will, make the receiver pass it up once with its full size and leave it idle |
| `Fragments.StreamRoundTrip` | ns2-gea/ns-2/80211/mac-rx-middle.cc:187-250 | any stream of MSDUs is passed up complete, in order, without repetition |
| `Fragments.WaitingDropsOthers` | ns2-gea/ns-2/80211/mac-rx-middle.cc:203-232 | a receiver waiting for a fragment drops frames of other MSDUs and goes on waiting |
| `Fragments.GivenUpBlocks` | ns2-gea/ns-2/80211/dca-txop.cc:391-411 | once a sender gives up midway, no frame of another number is passed up |
| `Fragments.RecoversIff` | ns2-gea/ns-2/80211/mac-rx-middle.cc:200-250 | a receiver stuck with k fragments is revived by an MSDU exactly if that has the same number modulo 4096 and more than k frames, which then is passed up in full; any other MSDU changes nothing |
| `Fragments.StuckStream` | ns2-gea/ns-2/80211/mac-rx-middle.cc:200-250 | a stream sent to a stuck receiver is lost up to the first MSDU that revives it and passed up complete and in order from there |
| `Fragments.GivenUpThenStream` | ns2-gea/ns-2/80211/dca-txop.cc:391-411 | the same for a sender that gives up after any k of its fragments and goes on with other MSDUs |
| `Fragments.NextDeliveredIff` | ns2-gea/ns-2/80211/mac-rx-middle.cc:200-250 | whatever became of an MSDU, the next one is passed up in full if and only if the receiver had accepted none of its frames or all of them |
| `Delivery.ExchangeInvariant` | ns2-gea/ns-2/80211/dca-txop.cc:342-430 | whatever CTS, data frames and acknowledgements are lost, the receiver is at the sender's fragment or one ahead, and the MSDU was passed up exactly if the last frame was accepted |
| `Delivery.AcknowledgedMeansDelivered` | ns2-gea/ns-2/80211/dca-txop.cc:342-430 | an MSDU is passed up at most once and only in full, and if the sender finishes it was passed up |
| `Delivery.LongLimit` | ns2-gea/ns-2/80211/dca-txop.cc:391-411 | from the start and after every acknowledged fragment, exactly as many losses in a row as the long limit leave the MSDU pending, and the next one drops it |
| `Delivery.ShortLimit` | ns2-gea/ns-2/80211/dca-txop.cc:350-367 | from the start and after every answered request to send, exactly as many unanswered ones as the short limit leave it pending, and the next one drops it |
| `Delivery.LastOutcomeCounts` | ns2-gea/ns-2/80211/dca-txop.cc:342-390 | an acknowledgement clears the long count, a CTS the short one |
| `Delivery.AnnouncedIs` | ns2-gea/ns-2/80211/dca-txop.cc:219-233 | the size announced is that of the next frame, zero if there is none |
| `Delivery.AnnouncedZero` | ns2-gea/ns-2/80211/dca-txop.cc:219-233 | the next size announced is zero exactly at the last frame and before an empty last fragment |
| `Delivery.ExactMultipleNeverDelivered` | ns2-gea/ns-2/80211/mac-low.cc:761-763 | a fragmented MSDU whose size is a multiple of the threshold is never passed up and its sender never finishes, whatever the channel does |
| `Delivery.LosslessFinishes` | ns2-gea/ns-2/80211/dca-txop.cc:368-430 | any other MSDU finishes when every transmission is acknowledged |
| `Delivery.CanGetThroughIff` | ns2-gea/ns-2/80211/mac-low.cc:761-763 | an MSDU can get through at all if and only if it is sent whole or its last fragment is not empty |
| `Delivery.SessionDelivered` | ns2-gea/ns-2/80211/dca-txop.cc:273-430 | a session of acknowledged MSDUs over a lossy channel is passed up complete, in order, once each |
| `Fragments.SmallerIsHalfCircle` | ns2-gea/ns-2/80211/mac-rx-middle.cc:126-140 | sequenceControlSmaller holds exactly when the second number is less than half the circle ahead |
| `Fragments.OrderAssertionHolds` | ns2-gea/ns-2/80211/mac-rx-middle.cc:264-264 | over any stream whose numbers advance by less than half the circle, with any retransmissions, the order assertion holds at every frame |
| `Delivery.DcaTxop.IsLast` | ns2-gea/ns-2/80211/dca-txop.cc:209-217 | true exactly at the last frame of the MSDU |
| `Delivery.DcaTxop.CurrentTransmission` | ns2-gea/ns-2/80211/dca-txop.cc:312-337 | the frame handed down is the current one of the specified list, after an RTS exactly if whole and above the RTS threshold, with the size of the frame to follow |
| `Delivery.DcaTxop.AccessGrantedNow` | ns2-gea/ns-2/80211/dca-txop.cc:273-339 | retransmits the frame in hand, or takes the next MSDU from the queue with fresh counters; a broadcast goes out whole, unacknowledged, and is forgotten |
| `Delivery.DcaTxop.GotCts` | ns2-gea/ns-2/80211/dca-txop.cc:342-349 | clears the short retry count |
| `Delivery.DcaTxop.MissedCts` | ns2-gea/ns-2/80211/dca-txop.cc:350-367 | counts a short retry, nothing else, and gives up exactly past the short limit |
| `Delivery.DcaTxop.GotAck` | ns2-gea/ns-2/80211/dca-txop.cc:368-390 | finishes exactly after the last frame, else clears the long retry count |
| `Delivery.DcaTxop.AckReceived` | ns2-gea/ns-2/80211/mac-low.cc:754-763 | an acknowledgement finishes the MSDU, sends the next fragment if its announced size is positive, or stalls the sender, as the specified fate says |
| `Delivery.DcaTxop.StartNext` | ns2-gea/ns-2/80211/dca-txop.cc:412-430 | moves to and sends the next fragment |
| `Delivery.DcaTxop.MissedAck` | ns2-gea/ns-2/80211/dca-txop.cc:391-411 | counts a long retry, nothing else, and gives up exactly past the long limit |
| `Fragments.OriginatorRxStatus.HandleDuplicates` | ns2-gea/ns-2/80211/mac-rx-middle.cc:187-198 | true exactly for the sequence control accepted last |
| `Fragments.OriginatorRxStatus.HandleFragments` | ns2-gea/ns-2/80211/mac-rx-middle.cc:200-250 | computes the specified reception step: held back, or passed with the accumulated size |
| `Fragments.OriginatorRxStatus.SendUp` | ns2-gea/ns-2/80211/mac-rx-middle.cc:264-273 | under the order assertion, both decisions together compute the specified step |
| `RateControl.StepKeepsInv` | ns2-gea/ns-2/80211/arf-mac-stations.cc:119-181 | each report keeps the rate in range, the success count below the threshold under the top rate, thresholds in range, counters consistent |
| `RateControl.RunsKeepInv` | ns2-gea/ns-2/80211/arf-mac-stations.cc:51-67 | so does every run from the constructor |
| `RateControl.SuccessesClimb` | ns2-gea/ns-2/80211/arf-mac-stations.cc:158-181 | from any reachable state below the top a row of successes climbs one mode at exactly the predicted success, at most threshold of them, so the equality test is never stepped over |
| `RateControl.FailuresFall` | ns2-gea/ns-2/80211/arf-mac-stations.cc:119-152 | the rate after any number of failures in a row: outside recovery every second one costs a mode, in recovery only the first one ever does |
| `RateControl.TimerOvertaken` | ns2-gea/ns-2/80211/arf-mac-stations.cc:172-174 | below the top the timer passes its timeout unnoticed if and only if a lone failure comes when one more report was due |
| `RateControl.TimerRule` | ns2-gea/ns-2/80211/arf-mac-stations.cc:119-181 | over any run of reports without two failures in a row or a threshold of successes, below the top and outside recovery, the station climbs with the report that brings the timer to its timeout if and only if that report is a success |
| `RateControl.TimerMissed` | ns2-gea/ns-2/80211/arf-mac-stations.cc:119-181 | if that report is a failure the rate stays, however many such reports follow |
| `RateControl.TimerNeverFires` | ns2-gea/ns-2/80211/arf-mac-stations.cc:172-174 | a station losing every other frame from the first on never climbs, however long it runs |
| `RateControl.Remembered` | ns2-gea/ns-2/80211/arf-mac-stations.cc:119-181 | over every run the station knows the length of the present row of failures, and is in recovery exactly if the report before that row raised the rate |
| `RateControl.ProbeFails` | ns2-gea/ns-2/80211/arf-mac-stations.cc:131-139 | if a report raises the rate and the next one fails, the rate is what it was before, and AARF's threshold is min(2 * old, 60) |
| `RateControl.RowOfFailures` | ns2-gea/ns-2/80211/arf-mac-stations.cc:119-152 | from the reports alone: a row of n failures costs one mode in all right after a climb, else one mode for every two |
| `RateControl.ClimbAfterClimb` | ns2-gea/ns-2/80211/arf-mac-stations.cc:172-179 | after a climb the next one takes exactly a whole threshold of successes, or the timeout if shorter |
| `RateControl.TimerAfterTwoFailures` | ns2-gea/ns-2/80211/arf-mac-stations.cc:148-150 | after two failures in a row the next timer climb comes exactly with the report number timeout from there, if that succeeds |
| `RateControl.ThresholdRemembers` | ns2-gea/ns-2/80211/aarf-mac-stations.cc:76-90 | over every run the AARF threshold is min(10 * 2^k, 60), the timeout twice that (15 for k = 0), k being the failures right after a report that raised the rate, since the last two failures in a row that came otherwise |
| `RateControl.ArfMacStation.SetTimerTimeout` | ns2-gea/ns-2/80211/arf-mac-stations.cc:220-224 | stores a timeout; its assertion is the precondition, met at every call |
| `RateControl.ArfMacStation.SetSuccessThreshold` | ns2-gea/ns-2/80211/arf-mac-stations.cc:225-229 | stores a threshold; its assertion is the precondition, met at every call |
| `RateControl.ArfMacStation.ReportRecoveryFailure` | ns2-gea/ns-2/80211/aarf-mac-stations.cc:76-83 | AARF doubles the threshold up to 60 and sets the timeout; ARF does nothing |
| `RateControl.ArfMacStation.ReportFailure` | ns2-gea/ns-2/80211/aarf-mac-stations.cc:85-90 | AARF goes back to the minimum values; ARF does nothing |
| `RateControl.ArfMacStation.ReportDataFailed` | ns2-gea/ns-2/80211/arf-mac-stations.cc:119-152 | computes the specified step and keeps the invariant |
| `RateControl.ArfMacStation.ReportDataOk` | ns2-gea/ns-2/80211/arf-mac-stations.cc:158-181 | computes the specified step and keeps the invariant |
| `Prelude.OrDisjoint` | ns2-gea/ns-2/80211/mac-dcf-parameters.cc:183-187 | bitwise or of non-overlapping fields is their sum |
| `EdcaParameters.BitsExact` | ns2-gea/ns-2/80211/mac-dcf-parameters.cc:147-155 | what the shifting loop counts is the number of bits: the least exponent whose power exceeds the value |
| `EdcaParameters.Log2` | ns2-gea/ns-2/80211/mac-dcf-parameters.cc:147-155 | the loop returns it |
| `EdcaParameters.MaskOfBits` | ns2-gea/ns-2/80211/mac-dcf-parameters.cc:185-186 | the exponent written stands for the least 2^k - 1 not below the window |
| `EdcaParameters.RoundTrip` | ns2-gea/ns-2/80211/mac-dcf-parameters.cc:157-209 | AIFSN modulo 16, ACM, and the TXOP limit in whole units modulo 2^16 come back; windows in 1..32767 come back as the least 2^k - 1 not below them |
| `EdcaParameters.Layout` | ns2-gea/ns-2/80211/mac-dcf-parameters.cc:157-192 | the four octets: AIFSN, ACM and category; the two least exponents; the limit to the nearest unit, high octet first |
| `EdcaParameters.ReadThenWrite` | ns2-gea/ns-2/80211/mac-dcf-parameters.cc:194-209 | octets read and written again are the same if and only if they name that category and neither exponent is zero |
| `EdcaParameters.UnchangedIff` | ns2-gea/ns-2/80211/mac-dcf-parameters.cc:157-209 | parameters come back unchanged if and only if AIFSN is below 16, both windows have the form 2^k - 1 with k in 1..15, and the limit is a number of units below 2^16 |
| `EdcaParameters.BlockRoundTrip` | ns2-gea/ns-2/80211/qap-scheduler.cc:272-282 | each of the four categories gets what its own round trip gives, and the block comes back unchanged exactly if all four do |
| `EdcaParameters.MacDcfParameters.WriteTo` | ns2-gea/ns-2/80211/mac-dcf-parameters.cc:157-192 | writes the four octets in place and leaves the rest of the buffer alone |
| `EdcaParameters.MacDcfParameters.ReadFrom` | ns2-gea/ns-2/80211/mac-dcf-parameters.cc:194-209 | the fields become what the four octets say |
| `EdcaParameters.StoreEdcaParameters` | ns2-gea/ns-2/80211/qap-scheduler.cc:272-282 | the loop fills the 16-octet buffer with all four categories |
| `EdcaParameters.UpdateEdcaParameters` | ns2-gea/ns-2/80211/mac-high-qsta.cc:121-131 | the loop overwrites all four parameter objects from the buffer; without a buffer nothing changes |
| `EdcaParameters.Announce` | ns2-gea/ns-2/80211/mac-high-qsta.cc:121-131 | store and update together: every station object ends with its category's round trip, all unchanged exactly if all can be carried |

## Left out

- The Tcl interpreter, string evaluation, autoloading, hash tables and memory management in `otcl.c`: a foreign library. Names in a request are already resolved, method tables are sets of names, and running a method means naming the class it belongs to; the `unknown` fallback of dispatch is not modelled.
- OTcl's linked list nodes: the `super`, `sub` and `order` lists are sequences held in fields, so the sharing and freeing of nodes is not captured. The loop and the exits of `TopoSort` are methods of their own.
- The instance and object parts of class destruction (`otcl.c:1080-1136`), which do not touch the class graph.
- OTcl.TopoSort: states the sort for the colours that operations can meet between calls (no class GRAY), which every operation keeps.
- Sleep and wake-up of the PHY and of `Dcf`: `updateBackoff` ignores sleep time, and `Phy80211::switchToIdleFromSleep` contradicts itself.
- ChannelAccess.BackoffConserved: runs contain no sleep, no NAV reset, no reception that starts at the instant the previous one ended and none reported ended later than announced; `ChannelAccess.ReceptionCovered` and `Nav.MacLow.NotifyCfPoll` say what a same-instant reception and a NAV reset do.
- Random numbers: the drawn number of slots is a parameter.
- Durations.DurationsTelescope: assumes zero propagation delay and no duration override.
- `sendDataPacket`'s duration for fragments and the EDCA and HCCA time budgets: sizes are taken before the data header is added, and `getDurationIdLeft` adds elapsed time, so no clean bound holds.
- Modulation formulas: the chunk success rate is a parameter of `Interference.CalculatePER`; `std::sort` is any sorted rearrangement.
- `delTsRequest`: it raises the interval without rechecking the limits and always answers false. The medium time field and the destination of a stream play no part in admission.
- Fragments.OriginatorRxStatus.SendUp: goes on where the source's else branch asserts false on every frame held back, since no fragment could be received otherwise; the order assertion is its precondition.
- Management frames and the table of originators in `mac-rx-middle.cc`, and the choice of transmission modes in `dca-txop.cc`: one flow is modelled.
- RateControl.ArfMacStation.ReportRecoveryFailure: AARF's factors are the constants 2, 60 and 2 with which stations are created, and counters are unbounded integers.
- EdcaParameters.Announce: the packet that carries the buffer and the beacon that announces it are not modelled.
- GEA's event loop, sockets, tclcl bindings, the wireshark dissector and the TCL configuration classes: input, output or foreign calls.
