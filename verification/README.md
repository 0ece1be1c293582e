# USBGuard in Dafny

USBGuard decides which USB devices may talk to the system. A policy is an ordered list of rule sets,
each an ordered list of rules; the first rule that matches a device decides about it. Rules are edited
by identifier, replaced by permanent decisions about devices, printed, saved to files and parsed again.
This project models that decision engine, the rule language, the policy generator, the device manager
and the IPC layer, and proves what every run of their operations guarantees.

`dafny verify dfyconfig.toml` checks the whole project.

## Main results

- **A permanent decision takes effect.** The policy accepts allow, block and reject exactly under a
  stated condition (`Permanence.DecisionSucceedsIff`), and then every lookup of the device answers with the rule of
  the decision, whatever else the policy holds and whatever conditions evaluate to
  (`Permanence.DecisionTakesEffect`). Repeating decisions leaves what the last one alone
  would have left (`Permanence.LastDecisionCounts`). An allow decision is for one place; elsewhere exactly
  the rule sets behind it decide (`Permanence.AllowIsForOnePlace`, with a policy that lets the device in
  elsewhere in `Permanence.AllowedElsewhere`).
- **A decision outlives the daemon.** From any rule files and after any changes, a decision that the
  policy accepted is in force after the save and a restart exactly if the rule files load, also when the
  save ended at a rule without a text (`Lifetime.DecisionsOutliveTheDaemon`). After a complete save, which
  it always is with one file, this is so exactly if every stored rule is on one line, and rules are on one
  line as long as no text with a line feed is appended (`Lifetime.OneLineForLife`).
- **A failed decision may be in force.** With a rule file a decision is reported as success exactly if the
  policy accepts it and every rule behind its rule set has a text (`Lifetime.DecisionIsStoredIff`); a policy
  in which decisions fail and take effect is in `Lifetime.FailureWithEffect`.
- **Lookups survive a restart** if all rules come back from their files as they are
  (`SameLookups.LookupsSurvive`); an appended comment and a rule-evaluated condition do not
  (`SameLookups.CommentIsDropped`, `SameLookups.EvaluatedBecomesApplied`).
- **Rules are read as they are written.** Every layout of a rule is read as what it says, whatever order,
  blanks, braces and operators it has and with a device identifier behind the target
  (`Layouts.LayoutIsRead`); the words of the language are fixed by literal texts (`Literals.EveryAttribute`).
- **Rules mean what they say.** Each operator is a quantified statement about the values of rule and device
  (`Matching.OperatorMeaning`), and through its device rule a device shows exactly its own data
  (`DeviceFacts.DeviceTexts`, `DeviceFacts.DeviceNumbers`, `DeviceFacts.DeviceInterfaces`).
- **Edits keep the order.** Among all rules of the policy an appended rule stands right behind its parent
  and a removed one is gone, and nothing else moves (`PolicyOrder.AppendedBehindParent`,
  `PolicyOrder.RemovedFromPlace`).
- **Rules survive their text.** Parsing the text of a rule gives the rule back up to a normal form that
  is the identity exactly under a stated condition (`RoundTrip.RuleReadBack`, `RoundTrip.NormalIsIdentity`),
  every parsed rule can be printed and parsed again (`Reprint.ReprintStable`), and a saved file loads to
  the same rules, apart from those of comments, exactly if no condition parameter holds a line feed
  (`LineFeeds.FileReadBackIff`, with the failing rule in `LineFeeds.AcceptedButNotLoadable`).
- **No lock-out.** A generated policy allows every device that was present, for all options and in front
  of every catch-all rule (`Generator.NoLockOut`); devices with another hash are left to the catch-all
  rule (`Generator.OthersAreCaught`).
- **Nested lookup is flat first match** (`PolicyLaws.LookupIsFlat`) and **identifiers are fresh over
  every run** (`PolicyLaws.RunIssuesFreshIds`).
- **The device index** keeps its invariant over every run, its two maps are inverse exactly on runs that
  enumerate no path with a device (`DeviceTree.InverseIff`), the events of each device are orderly
  (`DeviceTree.EventsAreOrderly`), their first one tells whether the device was plugged in or present
  (`DeviceTree.ArrivalIsTold`), and a sorted enumeration finds every parent and reports every device once
  (`Enumeration.EnumerationIsComplete`).
- **IPC.** A call returns only with the reply to its own request, slots are filled at most once, a late
  reply closes the connection and touches nothing (`Ipc.OwnReply`, `Ipc.FulfilledAtMostOnce`,
  `Ipc.LateReply`). While its caller waits, a delivered request is under way exactly if the server did not
  fail to send the reply (`Ipc.DeliveredUnlessLost`, with a run that loses one in `Ipc.ReplyCanBeLost`).
  Clients hold exactly the union of the entries about them (`IpcAccess.HeldExactly`).

## How the model is built

Code that changes things in place is written as classes and loops: `Policy.RuleSet` and `Policy.Policy`,
`Daemon.Daemon`, `Generator.PolicyGenerator`, `DeviceManager.Manager`, `AccessControl.Control` and
`IpcAccess.Server`, and the methods for escaping, set operators, condition masks, printing, loading,
tokenizing, path normalisation and Base64. Each is proved equal to a function on values, and the results
above are about those functions. The parser is a set of recursive functions, like the PEG it models, and
the IPC protocol is a state machine over the steps of callers, receive loop and server.

Exceptions are `Err` results. Inputs that come from outside are parameters: the results of conditions
(`Oracle`, fixed during one lookup) and whether their constructors accept a parameter (`Acceptor`), what
sysfs says about a path, whether a hook throws, the user database, and the service that the server gives
to a request.

Places where the code differs from its documentation, modelled as the code has them:

- A condition "rule-evaluated" names itself "rule-applied" (src/Library/RuleEvaluatedCondition.cpp:38).
- The check for a repeated label is attached to the keyword of the serial number and never runs
  (src/Library/RuleParser/Actions.hpp:263), so labels are collected (`Reprint.RepeatedAttribute`)
  and only they may be given twice (`Reprint.AcceptedIffGivenOnce`).
- The length test in front of the two hexadecimal digits never fires (src/Library/Utility.cpp:99); parsed
  texts do not need it.
- A rule can be "inserted anywhere in the policy" (src/Library/public/usbguard/Interface.hpp:71), and parent
  identifier 0 means the front of a rule set, but the policy looks for a rule with that identifier first
  and so never gets there (`PolicyLaws.FrontIsOutOfReach`).
- `isSubsetOf` is coverage in the other direction (`Matching.DeviceIdCoverage`), and a query for all
  privileges is never answered with yes (`AccessControl.AllIsNeverHeld`).

## Model

| member | source | states |
|---|---|---|
| `Text.EscapeString` | src/Library/Utility.cpp:34-72 | the character loop computes the escaped text |
| `Text.UnescapeString` | src/Library/Utility.cpp:74-136 | the one-pass loop with flag and jumps computes the recursive reading of escapes, including its error and past-the-end outcomes |
| `Text.UnescapeEscape` | src/Library/Utility.cpp:34-136 | unescaping an escaped byte string gives it back, for every byte string |
| `Text.HexByte` | src/Common/Utility.hpp:100-121 | two hexadecimal digits whose value is the number |
| `Matching.DeviceIdCoverage` | src/Library/public/usbguard/USB.cpp:91-127 | on identifiers with wildcards the subset test holds iff every device the second stands for is one the first stands for |
| `Matching.InterfaceCoverage` | src/Library/public/usbguard/USB.cpp:197-232 | on interface types coverage is the subset test without the cases in which zero meets an open field |
| `Matching.SubsetReflexive` | src/Library/public/usbguard/Predicates.hpp:38-42 | the comparison of values is reflexive |
| `Matching.SolveAllOf` | src/Library/public/usbguard/Rule.hpp:547-567 | the nested loops decide whether every rule value is matched by a device value |
| `Matching.SolveOneOf` | src/Library/public/usbguard/Rule.hpp:578-615 | the nested loops decide whether some rule value is matched; none-of is its negation |
| `Matching.SolveEqualsOrdered` | src/Library/public/usbguard/Rule.hpp:662-677 | same number of values and position by position matches |
| `Matching.SolveMatchAll` | src/Library/public/usbguard/Rule.hpp:688-703 | every device value is covered by a rule value |
| `Matching.AttributeAppliesTo` | src/Library/public/usbguard/Rule.hpp:416-466 | an attribute without values applies, and any other is decided by the solver of its operator |
| `Matching.OperatorMeaning` | src/Library/public/usbguard/Rule.hpp:416-466 | what each of the seven operators says, as quantifiers over the values of rule and device |
| `Matching.SupersetMeaning` | src/Library/public/usbguard/USB.cpp:118-124 | what match-all compares: identifiers the other way round, interface types as coverage, texts not at all |
| `Matching.OperatorStrength` | src/Library/public/usbguard/Rule.hpp:547-677 | equals-ordered implies equals implies all-of, which implies one-of when there are values; none-of is the negation of one-of |
| `Matching.EqualsIsPermutation` | src/Library/public/usbguard/Rule.hpp:627-652 | for distinct string values, equals holds iff the device values are a permutation of the rule values |
| `Matching.EqualsIsPermutationIff` | src/Library/public/usbguard/Rule.hpp:627-652 | equals on strings means being a permutation, for all device values, iff the rule values are distinct |
| `Rules.AppliesInEveryAttribute` | src/Library/RulePrivate.cpp:69-94 | a rule applies iff each of its matching attributes does, port and parent hash only in the sensitive form; what that means for an attribute is in OperatorMeaning |
| `Rules.UpdateConditionsState` | src/Library/RulePrivate.cpp:168-196 | the loop sets exactly the bits of the conditions that hold and fails beyond 64 conditions |
| `Rules.MaskExtremes` | src/Library/RulePrivate.cpp:114-150 | a mask is zero iff no bit is set and all ones iff every bit is |
| `Rules.ConditionsMeanQuantifiers` | src/Library/RulePrivate.cpp:114-150 | one-of, none-of and the all-style operators on the mask mean some, none and all conditions, negated ones the other way round; an error iff too many conditions, 64 for the all-style operators, or an operator for no conditions |
| `Rules.RuleIsMet` | src/Library/RulePrivate.cpp:96-150 | a rule is met iff every matching attribute applies and its conditions hold in the way the operator says, a negated one when what it negates does not; with the exact error cases |
| `Printer.AttributeToRuleString` | src/Library/public/usbguard/Rule.hpp:481-515 | the loop builds the text of an attribute with its operator and braces |
| `Printer.AppendValues` | src/Library/public/usbguard/Rule.hpp:492-508 | the loop over the values appends their texts separated by blanks |
| `Grammar.Until` | src/Library/RuleParser/Grammar.hpp:95-112 | what is read and what is left make up the text, and the boundary ends what was read |
| `Grammar.BoundedString` | src/Library/RuleParser/Grammar.hpp:109-117 | a bounded text starts and ends with its boundaries |
| `Grammar.ParseValue` | src/Library/RuleParser/Grammar.hpp:112-144 | a value of the kind of its attribute, read from the front of the text |
| `RoundTrip.UntilEscaped` | src/Library/RuleParser/Grammar.hpp:95-112 | the grammar reads an escaped text up to the closing quote |
| `RoundTrip.UnescapeInLockStep` | src/Library/RuleParser/Actions.hpp:87-91 | on every text the grammar accepts, unescaping never reads past the end, and it fails iff the text has an escape that it does not know |
| `RoundTrip.StringReadBack` | src/Library/RuleParser/Actions.hpp:87-91 | the quoted and escaped text of every byte string is read back |
| `RoundTrip.DeviceIdReadBack` | src/Library/RuleParser/Grammar.hpp:128-135 | the text of a device identifier is read back |
| `RoundTrip.InterfaceReadBack` | src/Library/RuleParser/Grammar.hpp:140-144 | the text of an interface type is read back |
| `RoundTrip.ConditionReadBack` | src/Library/public/usbguard/RuleCondition.cpp:92-204 | the text of a condition is read back as the kind that its name stands for |
| `RoundTrip.AttributeReadBack` | src/Library/RuleParser/Grammar.hpp:82-91 | the text of an attribute with operator and braces is read back |
| `RoundTrip.AttributesReadBack` | src/Library/RulePrivate.cpp:420-454 | the attributes in printing order are read back one after the other |
| `RoundTrip.Normal` | src/Library/RulePrivate.cpp:420-454 | the normal form has the same target and attribute by attribute the normal form of the attribute |
| `RoundTrip.RuleReadBack` | src/Library/RulePrivate.cpp:420-454 | parsing the text of any readable rule gives its normal form |
| `RoundTrip.NormalIsIdentity` | src/Library/RuleEvaluatedCondition.cpp:38 | the normal form is the rule itself iff it has no identifier, no odd operator on absent values and no rule-evaluated condition |
| `Reprint.ParsedRule` | src/Library/public/usbguard/RuleParser.cpp:45-80 | a parsed rule is readable, or what an empty line or a comment gives |
| `Reprint.ReprintStable` | src/Library/public/usbguard/RuleParser.cpp:45-80 | every parsed rule prints, its text parses to the normal form, and that is the rule iff it has no rule-evaluated condition |
| `Reprint.RepeatedAttribute` | src/Library/RuleParser/Actions.hpp:93-403 | of two printed occurrences next to each other the second is an error for every attribute but the label, of which the values are collected |
| `Reprint.AcceptedIffGivenOnce` | src/Library/RuleParser/Actions.hpp:93-403 | a text that the grammar reads is accepted iff no attribute but the label is given twice |
| `Layouts.LayoutIsRead` | src/Library/RuleParser/Grammar.hpp:95-193 | every layout of a rule, with an identifier behind the target, any order, blanks, braces and operators and a comment, is read as what it says, and refused iff it gives an attribute other than the label twice |
| `Layouts.IdBehindTarget` | src/Library/RuleParser/Actions.hpp:73-85 | a device identifier behind the target in front of the printed attributes of any readable rule becomes the identifier of that rule |
| `Literals.EveryAttribute` | src/Library/RulePrivate.cpp:420-454 | a literal text with all ten attributes and the rule it stands for, field by field |
| `Literals.EveryTarget` | src/Library/public/usbguard/Rule.cpp:305-335 | the words of the five targets are read and printed |
| `Literals.NoTarget` | src/Library/RuleParser/Grammar.hpp:182-193 | a comment has the empty target, an empty text none, and a text that starts like no target is an error |
| `Literals.EveryOperator` | src/Library/public/usbguard/Rule.cpp:365-390 | the words of the six operators are read, also the one the printer leaves out |
| `Literals.EveryCondition` | src/Library/public/usbguard/RuleCondition.cpp:132-204 | the words of the seven conditions are read, alone, negated and with a parameter |
| `Literals.EscapedCharacters` | src/Library/Utility.cpp:34-72 | literal escapes of quote, backslash, control characters and the ends of the printable range |
| `Literals.UnescapedByte` | src/Library/Utility.cpp:74-136 | hexadecimal digits of both cases are understood |
| `Literals.DocumentedRule` | doc/man/usbguard-rules.conf.5.adoc:285 | the beginning of a documented rule with its identifier behind the target |
| `PolicyState.IndexOf` | src/Library/public/usbguard/RuleSet.cpp:110-118 | the first rule with the identifier |
| `PolicyState.MatchIndex` | src/Library/public/usbguard/RuleSet.cpp:128-153 | the first rule that applies |
| `PolicyState.OnlyMatch` | src/Library/public/usbguard/RuleSet.cpp:128-153 | with one match no other rule applies |
| `PolicyLaws.FirstMatchingIs` | src/Library/public/usbguard/RuleSet.cpp:185-201 | the first rule that is met answers, an error in front of it ends the search, and otherwise the default target answers |
| `PolicyLaws.SentinelIsSound` | src/Library/public/usbguard/RuleSet.cpp:185-201 | an answer with the implicit identifier means that no rule of the set was met |
| `PolicyLaws.LookupIsFlat` | src/Library/public/usbguard/Policy.cpp:154-169 | the nested search is the first match in all rules in order, or else the implicit rule with the front default target |
| `PolicyLaws.GoodSteps` | src/Library/public/usbguard/Policy.cpp:58-152 | append, upsert, remove and device identifiers keep identifiers unique and in bounds, hand out the old counter, and change nothing when they fail |
| `PolicyLaws.RunIssuesFreshIds` | src/Library/public/usbguard/RuleSet.cpp:218-234 | over every run the identifiers handed out increase strictly from the counter on, at most LastID - 2, and as many as the counter moved |
| `PolicyLaws.FrontIsOutOfReach` | src/Library/public/usbguard/Policy.cpp:75-91 | an append with parent identifier 0 fails and changes nothing |
| `PolicyLaws.RuleIsFoundById` | src/Library/public/usbguard/Policy.cpp:128-139 | every rule of the policy is found by its own identifier |
| `PolicyOrder.AppendedInSet` | src/Library/public/usbguard/RuleSet.cpp:72-126 | in a rule set a rule goes in front for parent 0, to the end without a parent, and else right behind its parent, with the exact error cases; the counter ends above its identifier |
| `PolicyOrder.AppendedBehindParent` | src/Library/public/usbguard/Policy.cpp:52-91 | among all rules of the policy an appended rule stands right behind its parent, nothing else moves, and it fails iff identifiers have run out |
| `PolicyOrder.AppendedLast` | src/Library/public/usbguard/Policy.cpp:52-73 | without a parent it is the last rule of the policy |
| `PolicyOrder.RemovedFromPlace` | src/Library/public/usbguard/Policy.cpp:141-152 | a removal takes exactly the rule with the identifier out of the rules of the policy |
| `PolicyOrder.NothingToRemove` | src/Library/public/usbguard/Policy.cpp:141-152 | an identifier that no rule has is an error that changes nothing |
| `Decisions.RivalsAreCounted` | src/Library/RulePrivate.cpp:69-94 | every rule that can match the device is counted by the parent-insensitive scan |
| `Decisions.UncountedIsSkipped` | src/Library/public/usbguard/RuleSet.cpp:185-201 | a rule set in which the scan finds nothing cannot answer a lookup of the device |
| `Decisions.UpsertTakesEffect` | src/Library/public/usbguard/Policy.cpp:108-126 | after a successful upsert the new rule answers every lookup of the device |
| `Decisions.UpsertCases` | src/Library/public/usbguard/Policy.cpp:108-126 | an upsert overwrites one rule under its identifier, appends one rule, or fails and changes nothing; all other rules keep content, order and identifier |
| `Decisions.DecisionsOverwrite` | src/Library/public/usbguard/Policy.cpp:108-126 | upserting twice for one device is upserting the second time only, under the same identifier |
| `Decisions.LastDecisionWins` | src/Library/public/usbguard/Policy.cpp:108-126 | the same over any sequence of upserts |
| `Policy.RuleSet.constructor` | src/Library/public/usbguard/RuleSet.cpp:38-44 | an empty rule set; the shared counter starts again |
| `Policy.RuleSet.AssignID` | src/Library/public/usbguard/RuleSet.cpp:224-234 | the next identifier with 32-bit wrap-around, or an error that leaves the counter |
| `Policy.RuleSet.AppendRule` | src/Library/public/usbguard/RuleSet.cpp:72-126 | the list and the counter after an append at the end, at the front or behind a parent |
| `Policy.RuleSet.Find` | src/Library/public/usbguard/RuleSet.cpp:110-118 | the place of the first rule with the identifier |
| `Policy.RuleSet.UpsertRule` | src/Library/public/usbguard/RuleSet.cpp:128-153 | the counting loop overwrites the only matching rule, reports none, or fails on several |
| `Policy.RuleSet.GetRule` | src/Library/public/usbguard/RuleSet.cpp:155-166 | the first rule with the identifier |
| `Policy.RuleSet.RemoveRule` | src/Library/public/usbguard/RuleSet.cpp:168-183 | the list without the first rule with the identifier |
| `Policy.RuleSet.GetFirstMatchingRule` | src/Library/public/usbguard/RuleSet.cpp:185-201 | the first rule that is met, or the implicit rule |
| `Policy.Policy.AppendRule` | src/Library/public/usbguard/Policy.cpp:58-93 | the policy after an append, with the retry in the next rule set |
| `Policy.Policy.AppendAfterParent` | src/Library/public/usbguard/Policy.cpp:75-91 | the loop over the rule sets that looks for the parent |
| `Policy.Policy.TryNumber` | src/Library/public/usbguard/Policy.cpp:187-195 | a rule without an identifier gets the next one |
| `Policy.Policy.UpsertRule` | src/Library/public/usbguard/Policy.cpp:108-126 | the policy after the scan over all rule sets and the append to the last |
| `Policy.Policy.RemoveRule` | src/Library/public/usbguard/Policy.cpp:141-152 | the policy without the rule, or unchanged |
| `Policy.Policy.GetRule` | src/Library/public/usbguard/Policy.cpp:128-139 | the first rule with the identifier in the first rule set that has one |
| `Policy.Policy.GetFirstMatchingRule` | src/Library/public/usbguard/Policy.cpp:154-169 | the search over the rule sets with the implicit identifier as sentinel |
| `Devices.GetDeviceRule` | src/Library/DevicePrivate.cpp:77-123 | the rule filled step by step, with the errors for a missing hash |
| `DeviceFacts.DeviceRuleFailsIff` | src/Library/DevicePrivate.cpp:77-123 | a device rule cannot be formed iff the hash, or a parent hash that is asked for, is missing |
| `DeviceFacts.DeviceTexts` | src/Library/DevicePrivate.cpp:77-123 | a rule that names one text for serial, name, hash, connect type, port or parent hash applies to the device rule iff that is the datum of the device and the device rule has it |
| `DeviceFacts.DeviceNumbers` | src/Library/DevicePrivate.cpp:77-123 | a rule that names a device identifier applies iff it stands for vendor and product of the device |
| `DeviceFacts.DeviceInterfaces` | src/Library/DevicePrivate.cpp:77-123 | a rule with one-of an interface type applies iff some interface of the device is of it |
| `DeviceFacts.DeviceInterfaceList` | src/Library/DevicePrivate.cpp:77-123 | a rule with equals-ordered applies iff it lists the interfaces of the device in their order |
| `Devices.DeviceRuleIsReadable` | src/Library/DevicePrivate.cpp:77-123 | the text of every device rule is read back unchanged, whatever bytes the device reports |
| `Devices.RepeatedRuleApplies` | src/Library/RulePrivate.cpp:69-94 | a rule whose attributes are absent or those of the device applies to it |
| `RuleFile.SerializeRules` | src/Library/public/usbguard/RuleSet.cpp:251-259 | the loop writes each rule on a line of its own, up to the first rule without a text |
| `RuleFile.LoadText` | src/Daemon/FileRuleSet.cpp:87-102 | the loop over lines appends the parsed rules and stops at the first error |
| `RuleFile.RuleLineFeed` | src/Library/RulePrivate.cpp:420-454 | the text of a readable rule has a line feed iff a condition parameter has one |
| `RuleFile.FileReadBack` | src/Daemon/FileRuleSet.cpp:87-117 | saving and loading gives the same sequence of rules in normal form, numbered anew; rules of comments are dropped |
| `LineFeeds.FileWithLineFeedFails` | src/Daemon/FileRuleSet.cpp:87-102 | a file of rules of which one has a line feed is written but does not load |
| `LineFeeds.FileReadBackIff` | src/Daemon/FileRuleSet.cpp:87-117 | a saved file loads to the rules in normal form, without the rules of comments and numbered anew, iff every rule is on one line |
| `LineFeeds.AcceptedButNotLoadable` | src/Library/RandomStateCondition.cpp:31-37 | a rule whose probability is followed by a backslash and a line feed is accepted from its text, and the file it is saved to does not load |
| `Daemon.Daemon.UpsertRule` | src/Daemon/Daemon.cpp:674-689 | both texts are parsed, the policy is changed by the upsert, and with a rule file all files are written, an error if one cannot be |
| `Daemon.Daemon.SavePolicy` | src/Library/public/usbguard/Policy.cpp:214-219 | every file is overwritten in order, up to one that cannot be written in full |
| `Daemon.Daemon.UpsertDeviceRule` | src/Daemon/Daemon.cpp:964-1028 | the policy and the files after a permanent decision through the texts of both rules, and the rule found by the returned identifier |
| `Daemon.Daemon.GetInsertedDevicePolicyRule` | src/Daemon/Daemon.cpp:855-891 | the rule that decides about an inserted device, by policy method |
| `Daemon.InsertedTarget` | src/Daemon/Daemon.cpp:855-891 | the methods that block and reject give that target whatever the policy says, the policy decides only with its own method, and the others are errors |
| `Permanence.DecideIsUpsert` | src/Daemon/Daemon.cpp:1015-1028 | printing and parsing cancel out: a decision is an upsert of the decision rule |
| `Permanence.DecisionSucceedsIff` | src/Daemon/Daemon.cpp:964-1023 | the policy accepts a decision iff the device is known, its rule can be formed and the scan ends with one match, or with none and an identifier left; otherwise the policy does not change; saving is not part of it |
| `Permanence.DecisionTakesEffect` | src/Daemon/Daemon.cpp:964-1028 | a decision that can be made succeeds, and then every lookup of the device answers with its rule and target; for block and reject at every port and parent |
| `Permanence.DecisionOnInsertion` | src/Daemon/Daemon.cpp:855-891 | a device that is inserted again, when allowed at the same parent and, if rules name ports, port, gets the target of the decision |
| `Permanence.AllowIsForOnePlace` | src/Daemon/Daemon.cpp:972-1003 | at another port, if rules name ports, or parent, an allowed device is left to the rule sets behind the one of the decision, and else to the default target |
| `Permanence.AllowedElsewhere` | src/Daemon/Daemon.cpp:972-1003 | a policy of two rule sets in which an allow decision leaves the device allowed at every other place |
| `Permanence.LastDecisionCounts` | src/Daemon/Daemon.cpp:964-1028 | a sequence of decisions about a device leaves what its last one alone would have left, under the first identifier |
| `Restart.NormalApplies` | src/Library/RulePrivate.cpp:69-94 | reading a rule back does not change which devices it matches |
| `Restart.ReloadedFirst` | src/Daemon/FileRuleSet.cpp:87-117 | the first unconditional match of a device in a rule set is still its first match after saving and loading |
| `Restart.PolicyReadBack` | src/Daemon/Daemon.cpp:393-413 | saving and loading all rule files gives every rule set back, numbered anew by the counter that runs on |
| `Restart.PolicyWithLineFeedFails` | src/Daemon/Daemon.cpp:393-413 | a policy with a rule on more than one line is saved but not loaded |
| `Restart.FirstAfterReload` | src/Daemon/Daemon.cpp:393-413 | the first unconditional match in the policy still answers the lookup after all rule sets were saved and loaded |
| `Restart.UpsertedRules` | src/Library/public/usbguard/Policy.cpp:108-126 | an upsert sets one rule of one rule set, changes no other, and no rule in front of it is counted by the scan |
| `Restart.DecidedRuleIsReturned` | src/Daemon/Daemon.cpp:1023-1027 | the rule that a decision returns is the rule of the decision |
| `Restart.SavedFiles` | src/Library/public/usbguard/Policy.cpp:214-219 | saving succeeds iff every rule set has a text, and then the files are these texts |
| `Restart.ReloadedFromFiles` | src/Daemon/Daemon.cpp:393-413 | a restart after a complete save finds the reloaded policy |
| `Restart.DecisionSurvivesRestart` | src/Daemon/Daemon.cpp:674-689 | after saving and loading all rule sets, lookups of the device still answer with the rule of the decision |
| `SameLookups.LookupsSurvive` | src/Daemon/Daemon.cpp:393-413 | if all rules can be stored and come back as they are, every lookup gives the same rule or error before and after a restart |
| `SameLookups.CommentIsDropped` | src/Daemon/FileRuleSet.cpp:87-102 | an appended comment answers every lookup, and after a restart none |
| `SameLookups.EvaluatedBecomesApplied` | src/Library/RuleEvaluatedCondition.cpp:38 | a rule with a rule-evaluated condition may be met before a restart and not after it |
| `Saving.WrittenIsTexted` | src/Library/public/usbguard/RuleSet.cpp:251-259 | what is written of a rule set is the text of its rules in front of the first one without a text |
| `Saving.FilesAfterSave` | src/Library/public/usbguard/Policy.cpp:214-219 | after a save, complete or not, the files that were reached hold the texts and the others what they held; complete iff all rules were reached |
| `Saving.LoadsIff` | src/Daemon/Daemon.cpp:393-413 | the files load after a save iff what was written is on one line for each rule and the files not reached load, and then the policy begins with what was written |
| `Lifetime.ParsedIsOneLine` | src/Library/public/usbguard/RuleParser.cpp:45-80 | a text without a line feed gives a rule on one line |
| `Lifetime.ParsedIsFromText` | src/Library/public/usbguard/RuleParser.cpp:45-80 | every parsed text gives a rule that can be saved, or a rule without target and attributes |
| `Lifetime.ChangesKeep` | src/Daemon/Daemon.cpp:674-750 | decisions, appends of any texts, removals and devices that take identifiers keep the identifiers in order and every property of rules, independent of identifiers, that the new rules have, over every sequence |
| `Lifetime.LoadKeeps` | src/Daemon/FileRuleSet.cpp:87-102 | what is loaded from lines of bytes is numbered in sequence, and each rule can be saved and is on one line |
| `Lifetime.LoadAllKeeps` | src/Daemon/Daemon.cpp:393-413 | the same for all rule files one after the other, numbered by the one counter |
| `Lifetime.TextsBehind` | src/Library/public/usbguard/Policy.cpp:108-126 | after a decision every rule has a text iff the rules behind its rule set do |
| `Lifetime.DecisionIsStoredIff` | src/Daemon/Daemon.cpp:674-689 | with a rule file a decision is reported as success iff the policy accepts it and every rule behind its rule set has a text; a decision the policy does not accept leaves policy and files as they were |
| `Lifetime.FailureWithEffect` | src/Daemon/Daemon.cpp:681-685 | a policy in which every decision is reported as failure, changes the policy and is in force after a restart |
| `Lifetime.DecisionSurvivesIff` | src/Daemon/Daemon.cpp:674-689 | in a policy of parsed rules, a decision the policy accepts is in force after the save, complete or not, and a restart iff the files load, iff what was written is on one line for each rule and the files not reached load; after a complete save iff every stored rule is on one line |
| `Lifetime.OneSetHasRules` | src/Library/public/usbguard/RuleSet.cpp:128-153 | with one rule set a successful decision leaves no rule without a text |
| `Lifetime.DecisionsOutliveTheDaemon` | src/Daemon/Daemon.cpp:674-750 | the same from any rule files, after any changes and with any files by then; with one file the save is complete |
| `Lifetime.OneLineForLife` | src/Daemon/Daemon.cpp:726-740 | as long as no text with a line feed is appended, every stored rule is on one line |
| `Generator.PolicyGenerator.constructor` | src/CLI/PolicyGenerator.cpp:30-42 | an empty rule set and the default options |
| `Generator.PolicyGenerator.DmHookDeviceEvent` | src/CLI/PolicyGenerator.cpp:96-139 | the rule set after a device event, by options |
| `Generator.PolicyGenerator.Generate` | src/CLI/PolicyGenerator.cpp:63-78 | the rule set after the scan and the catch-all rule |
| `Generator.AfterEventsRules` | src/CLI/PolicyGenerator.cpp:96-139 | the generated rules are exactly the rules of the devices that have one |
| `Generator.GeneratedApplies` | src/CLI/PolicyGenerator.cpp:96-139 | a generated rule matches its device where it was seen, for all options |
| `Generator.GeneratedLooksAt` | src/CLI/PolicyGenerator.cpp:96-139 | a device that differs in one attribute is still matched iff the options make the rule not look at it |
| `Generator.NoLockOut` | README.adoc:93-95 | the generated, printed and loaded policy allows every present device, whatever the options and the catch-all rule |
| `Generator.OthersAreCaught` | src/CLI/PolicyGenerator.cpp:63-139 | with hashes, a device with another hash gets the catch-all target, or the default without one or with the empty one |
| `DeviceTree.RunKeeps` | src/Library/DeviceManagerBase.cpp:75-105 | over every run a path with an identifier names a live device with that path, paths share no identifier, and parents have smaller identifiers |
| `DeviceTree.ParentsDescend` | src/Library/DeviceBase.cpp:42-51 | no chain of parents comes back to a device |
| `DeviceTree.InverseIff` | src/Library/UEventDeviceManager.cpp:395-433 | the two maps are inverse at the end of a run iff the run enumerated no path that had a device |
| `DeviceTree.OrphanStaysOverRun` | src/Library/DeviceManagerBase.cpp:82-94 | a device that lost its path is never found nor removed again |
| `DeviceTree.EventsAreOrderly` | src/Library/DeviceManagerBase.cpp:243-344 | over every run the events of an identifier are an arrival, presences and at most one final removal, and the device exists exactly in between |
| `DeviceTree.LiveIsReported` | src/Library/UEventDeviceManager.cpp:330-365 | adding a path with a device again only reports it as present |
| `DeviceTree.RemovalIsTold` | src/Library/DeviceManagerBase.cpp:332-344 | a removal takes the device and its path out of the maps and reports it, or changes nothing |
| `DeviceTree.InsertionIsRecorded` | src/Library/DeviceBase.cpp:36-51 | a device comes in with its path and the identifier of its parent, iff the parent is known and an identifier is left |
| `DeviceTree.ArrivalIsTold` | src/Library/DeviceManagerBase.cpp:295-300 | over every run the first event of a new identifier is an insertion iff the step was an event about a path not in the index, and a presence otherwise |
| `DeviceTree.EnumerationReportsPresence` | src/Library/UEventDeviceManager.cpp:395-433 | runs of enumerations report presences and nothing else |
| `DeviceManager.Manager.KnownSysfsPath` | src/Library/DeviceManagerBase.cpp:357-376 | whether a path is known, and its identifier |
| `DeviceManager.Manager.SelectParent` | src/Library/DeviceBase.cpp:42-51 | the identifier of the parent, root without a parent device, an error for an unknown path |
| `DeviceManager.Manager.InsertDevice` | src/Library/DeviceManagerPrivate.cpp:73-81 | both maps and the counter after an insertion |
| `DeviceManager.Manager.ProcessDeviceInsertion` | src/Library/DeviceManagerBase.cpp:275-330 | the maps and the event after an insertion, nothing if there is none; unless devices are only enumerated the device is rejected iff it was not inserted or the hook throws, and in the latter case it stays in both maps |
| `DeviceManager.Manager.ProcessDeviceRemoval` | src/Library/DeviceManagerBase.cpp:332-344 | the maps and the event after a removal; a path without a device stays |
| `DeviceManager.Manager.ProcessAdd` | src/Library/UEventDeviceManager.cpp:330-383 | a path with a device is reported, any other is inserted |
| `DeviceManager.Manager.EnumerateTriggerDevice` | src/Library/UEventDeviceManager.cpp:395-433 | the path is marked and then added |
| `Enumeration.BeforeIsStrictOrder` | src/Library/UEventDeviceManager.cpp:137-164 | the comparison is a strict total order on names |
| `Enumeration.BeforeInOrder` | src/Library/UEventDeviceManager.cpp:137-164 | literal names in the order in which they are enumerated |
| `Enumeration.HubIsVisitedFirst` | src/Library/UEventDeviceManager.cpp:137-164 | in a sorted list hubs come before the devices behind them |
| `Enumeration.EnumerationIsComplete` | src/Library/UEventDeviceManager.cpp:385-433 | enumerating a sorted closed list gives every entry a device under the device of its parent, each reported as present exactly once in the order of the list |
| `Ipc.RunKeeps` | src/Library/IPCClientPrivate.cpp:200-269 | over every interleaving, calls and slots agree and no call has two messages under way |
| `Ipc.OwnReply` | src/Library/IPCClientPrivate.cpp:206-269 | a call that returns with a reply or an exception has the one to its own request |
| `Ipc.FulfilledAtMostOnce` | src/Library/IPCClientPrivate.cpp:440-472 | over every run a slot is given a value at most once |
| `Ipc.LateReply` | src/Library/IPCClientPrivate.cpp:440-472 | the receive loop closes the connection iff the reply belongs to a call that gave up, and then changes no slot and no call |
| `Ipc.ReceiveTouchesOneSlot` | src/Library/IPCClientPrivate.cpp:440-472 | a message only changes the slot of its own request |
| `Ipc.HeldReplyIsReturned` | src/Library/IPCClientPrivate.cpp:244-268 | a call whose slot holds a reply returns with it, as an exception if it is one, and its slot is gone |
| `Ipc.WaitingCanGiveUp` | src/Library/IPCClientPrivate.cpp:241-258 | a call whose slot is empty can time out and then returns without a reply |
| `Ipc.CallReturns` | src/Library/IPCClientPrivate.cpp:206-269 | on a quiet connection a call returns with what the server answers or the reason for which it refuses |
| `Ipc.NoTrafficWhenClosed` | src/Library/IPCClientPrivate.cpp:208-212 | on a closed connection no call begins, nothing is sent and nothing is received |
| `Ipc.DeliveredUnlessLost` | src/Library/IPCServerPrivate.cpp:287-331 | while the connection lives and the caller waits, a delivered request is under way, or its reply is under way or in the slot, iff the server did not fail to send the reply |
| `Ipc.LostCallsGiveUp` | src/Library/IPCClientPrivate.cpp:241-259 | a call whose reply could not be sent can only time out |
| `Ipc.ReplyCanBeLost` | src/Library/IPCServerPrivate.cpp:312-331 | a run after which the connection lives, the caller waits and no reply is under way |
| `AccessControl.Merge` | src/Library/public/usbguard/IPCServer.cpp:235-240 | the sections of both and in each section the bits of both |
| `AccessControl.SetKeepsPermitted` | src/Library/public/usbguard/IPCServer.cpp:153-175 | setting privileges stores only bits that the section permits |
| `AccessControl.SetInSection` | src/Library/public/usbguard/IPCServer.cpp:153-175 | setting a privilege in a section gives exactly it there, ALL gives all that mean something there, and it fails iff it means nothing there |
| `AccessControl.SetInAllSections` | src/Library/public/usbguard/IPCServer.cpp:153-166 | setting a privilege in all sections gives it in each section where it means something |
| `AccessControl.MergeKeepsPermitted` | src/Library/public/usbguard/IPCServer.cpp:235-240 | so does merging |
| `AccessControl.MergeIsUnion` | src/Library/public/usbguard/IPCServer.cpp:235-240 | a merged value holds a privilege iff one of the two does |
| `AccessControl.AllIsNeverHeld` | src/Library/public/usbguard/IPCServer.cpp:133-151 | a query for all privileges is answered with no by every reachable value |
| `AccessControl.QueriesOutside` | src/Library/public/usbguard/IPCServer.cpp:133-160 | a query for nothing is granted, any other is an error outside the four sections, and so is setting in none |
| `AccessControl.Control.Has` | src/Library/public/usbguard/IPCServer.cpp:133-151 | the answer to a query, with the error for sections that are none |
| `AccessControl.Control.Set` | src/Library/public/usbguard/IPCServer.cpp:153-175 | the value after setting a privilege, with the loop over all sections and the error cases |
| `AccessControl.Control.MergeFrom` | src/Library/public/usbguard/IPCServer.cpp:235-240 | the loop over the entries merges them in any order |
| `AccessControl.Control.Load` | src/Library/public/usbguard/IPCServer.cpp:182-206 | the value after loading a text, up to the first error |
| `AccessControl.Control.Save` | src/Library/public/usbguard/IPCServer.cpp:208-233 | the loops write the text of the value |
| `AccessText.SaveLoad` | src/Library/public/usbguard/IPCServer.cpp:182-233 | loading a saved reachable value gives the same bits in every section and the same answer to every query |
| `AccessText.LoadKeepsPermitted` | src/Library/public/usbguard/IPCServer.cpp:182-206 | loading stores only permitted bits |
| `AccessText.DocumentedLine` | doc/man/usbguard-daemon.conf.5.adoc:173-178 | literal lines give the privileges that their words name and no others |
| `AccessText.OtherLines` | src/Library/public/usbguard/IPCServer.cpp:187-196 | a line without an equals sign is passed over, one with an unknown section is an error |
| `AccessText.SavedLine` | src/Library/public/usbguard/IPCServer.cpp:208-233 | the literal line of a section with all three privileges |
| `IpcAccess.Server.AddAllowedUid` | src/Library/IPCServerPrivate.cpp:1025-1028 | an entry is added unless there is one |
| `IpcAccess.Server.MatchAclByUid` | src/Library/IPCServerPrivate.cpp:544-559 | the entry for the user number is merged |
| `IpcAccess.Server.MatchAclByGid` | src/Library/IPCServerPrivate.cpp:561-576 | the entry for the group number is merged |
| `IpcAccess.Server.MatchAclByName` | src/Library/IPCServerPrivate.cpp:578-662 | the entries by names and memberships are merged, in any order of the tables |
| `IpcAccess.Server.ConnectionAllowed` | src/Library/IPCServerPrivate.cpp:275-285 | a client is accepted iff there are no entries or one is about it, and gets the privileges of exactly those |
| `IpcAccess.Server.CheckPermissions` | src/Library/IPCServerPrivate.cpp:949-964 | the answer is that of the gate for a client accepted with the same user and group |
| `IpcAccess.HeldExactly` | src/Library/IPCServerPrivate.cpp:535-662 | an accepted client holds a privilege iff an entry about it grants it |
| `IpcAccess.WhoIsMeant` | src/Library/IPCServerPrivate.cpp:535-662 | some entry is about a client iff its user or group is listed, by number or name, or its user is a member of a listed group |
| `IpcAccess.SameAnswers` | src/Library/IPCServerPrivate.cpp:535-662 | the answers to all queries do not depend on the order of the tables |
| `IpcAccess.EmptyListGrantsNothing` | src/Library/IPCServerPrivate.cpp:275-285 | with no entries clients are accepted without any privilege |
| `Base64.Base64Encode` | src/Library/Base64.cpp:200-234 | the loop fills a buffer of the computed size with the encoding; an error for no data |
| `Base64.Base64Decode` | src/Library/Base64.cpp:236-285 | the loop fills a buffer of the computed size with the decoding, with the errors for sizes and characters |
| `Base64.Encode` | src/Library/Base64.cpp:287-290 | the encoding has the computed size |
| `Base64.DecodeEncode` | src/Library/Base64.cpp:117-139 | decoding an encoding gives the data back, for all data that can be encoded |
| `Base64.KnownValues` | src/Library/Base64.cpp:117-139 | test vectors of RFC 4648 and a value with the last two digits |
| `Base64.EncodeDecode` | src/Library/Base64.cpp:177-196 | encoding a decoding gives the text back iff its unused trailing bits are zero |
| `Base64.DigitOfValue` | src/Library/Base64.cpp:143-173 | every character that the input check accepts is the digit of its value, and none is the padding character |
| `Paths.TokenizeString` | src/Common/Utility.hpp:68-94 | the loop over positions computes the tokens, with or without empty ones |
| `Paths.NormalizePath` | src/Common/Utility.cpp:473-508 | erasing components in place computes the left-to-right evaluation of the path |
| `Paths.NormalizedComponents` | src/Common/Utility.cpp:473-508 | a normalised path has the resolved components, none of them empty or made of dots |
| `Paths.ResolveLaws` | src/Common/Utility.cpp:473-508 | a dot stays, two dots undo the step before them and do nothing at the start |
| `Paths.NormalFormIsCanonical` | src/Common/Utility.cpp:473-508 | normalising keeps what a path names, is idempotent, and identifies exactly the paths that name the same place |

## Left out

- LDAP rule sets and LDIF output: a foreign library; the lookup there copies the rule set and with it resets the identifier counter.
- Sysfs, netlink, libqb, protobuf encoding, D-Bus, polkit, seccomp, signals, logging and the command lines: input and output; what they deliver is a parameter of the model.
- Hash backends and USB descriptor parsing: a hash is an opaque text of the device, an empty one has not been computed.
- The bodies of clock, random and match-counting conditions: their results are an oracle that is fixed during one lookup, and whether a parameter is accepted is another.
- Vendor and product numbers of devices are the four hexadecimal digits the kernel reports; the reading of them is not modelled.
- Rules.ConditionsMeanQuantifiers: with exactly 64 conditions the all-style operators are an error here, because the shift in the source is undefined.
- Daemon.Daemon.UpsertRule: every rule set has a file that can be opened; memory rule sets are not modelled. As in the source an upsert is saved only if a rule file is configured, so not with a rule folder alone.
- SameLookups.LookupsSurvive: the condition is sufficient, since a rule that no lookup gets to may change; conditions evaluate the same before and after the restart.
- DeviceManager.Manager.ProcessDeviceInsertion: inserting fails only for an unknown parent or without an identifier left; a device whose files cannot be read is left aside before (`Unusable`), and whether removing a rejected device through sysfs succeeds is not modelled.
- Ipc.RunKeeps: message identifiers do not wrap around at 64 bits, and the receive loop reads the return map in one step although the source takes no lock there.
- IPC waiting times and the contents of requests: a timeout is a step that may happen at any time while a slot is empty.
- The backlog of events that arrive during enumeration: runs are arbitrary sequences of events.
- Targets written to sysfs and the policy for devices that are present at the start.
- Prefix and suffix helpers, configuration files, numbers to text in other bases: not needed by the results.
