/** What happens in one room, in the order it happens. Every stretch of a handler between two
    `await`s appends its events at once; stretches of different handlers interleave freely. */
module SceneEvents {
  import opened Wrappers
  import opened SceneBlocks

  /** Who typed a consent command. */
  datatype Invoker = Invoker(admin: bool, name: string)

  /** Whose answer to a consent request counts: an admin's, and the target's own. */
  predicate ConsentAuthorized(who: Invoker, target: string) {
    || who.admin
    || (PoserName(who.name) != "" && PoserName(who.name) == PoserName(target))
  }

  datatype Event =
    | LineIn(line: ContextLine)                           // a room line joined the scene
    | LedgerBlock(block: ContextLine, scheduled: bool, giver: Option<nat>)   // handed over by that pose, or by a line
    | Started(task: nat)                                  // the oldest scheduled distillation ran up to its await
    | Finished(task: nat, entry: string, actors: seq<string>)
    | Requested(target: string)                           // a pose was stopped to ask for consent
    | Passed(pose: nat, gate: Option<string>)             // a pose reached the persona
    | Silent(pose: nat)                                   // the persona declined to pose
    | Emitted(pose: nat)                                  // the pose went out to the room
    | Consented(target: string, who: Invoker)
    | Declined(target: string, who: Invoker)
    | RpOn
    | OffBegun                                            // rp off, up to the summarizer
    | RpOff                                               // rp off, scene state cleared
}
