# Card arena combat model

A Dafny model of the combat and selection state of a small browser card game.
Cards are dropped onto a camera view and spawn characters there. The player selects a
character and issues Attack, Defend and Heal commands. Attacks go automatically to
the nearest other character.

The model covers the two classes of `src/game.ts`:

- `Character` (`entities.dfy`) is a class. Its health and defence change in place.
  Its id, name, maximum health, attack and position are fixed at spawn. The source
  never writes them afterwards, so the model declares them `const`.
- `Game` (`session.dfy`) is a class with these fields:
  - `characters`: the live characters in spawn order, as a `seq`.
  - `selected`: the current selection, as a nullable reference.
  - `pending`: the Defend timers that have not fired yet.

  Every operation is a method. Its `ensures` gives the new list, selection, health
  and defence in terms of the old state. Every method keeps two invariants:
  - `Valid`: the selection is a live character, and no character is listed twice.
  - `HealthInRange`: every live character has `0 <= hp <= maxHp`. The source does
    not check the card's health, so `Spawn` keeps this invariant only for a card
    with non-negative health. All cards in the catalogue have positive health.

The arithmetic (damage through defence, capped healing, clamping a spawn position)
is in `stats.dfy`. The list filter used for removal is in `seqs.dfy`. The lookups
(by id, and nearest target) are in `targeting.dfy`. Each lookup is a function with
lemmas about it. `Game.FindNearest` is the loop of the source, proved equal to the
`Nearest` function. `scenarios.dfy` holds client methods that run sequences of
operations, and sample play-throughs with concrete cards and positions.

Modelling decisions:

- **Defend timer.** Every Defend timer runs for the same 3000 ms, so the timers fire
  in the order they were started. `pending` is therefore a queue of
  `DefendExpiry(who, oldDef)` records. `ExpireDefend` is one timer firing: it writes
  the recorded value back, whether or not the character is still alive. This exposes
  the stacking behaviour. After two overlapping Defends and both expiries, the
  defence is one bonus (+5) above where it started (`DefendTwiceThenExpire`).
- **Positions.** Positions are integer coordinates. The distance is the squared
  distance between box corners. When every box has the same size, this orders
  candidates exactly as the Euclidean distance between centres does, and the
  strict-`<` scan picks the same character, except that on an exact tie the game's
  rounded `Math.hypot` may favour a later candidate. The equal size and the tie
  break are both recorded under "## Left out".
- **Clicks.** Each character's own click listener stops the event from reaching the
  camera's listener. So in the running program, a click on a character only toggles
  its selection (`SelectById`). A browser sends two `click` events before each
  `dblclick`, so a double-click on a character runs `SelectById` twice and then
  `AutoAttack` (src/game.ts:109-118); the two toggles clear any selection of a
  different character. The camera listener's branch where the selected
  character attacks the clicked one is modelled as written, in `CameraClick`.
  That branch is not the live click behaviour.
- **Unreachable attack branch.** The camera listener's branch in which the selected
  character attacks the clicked one (src/game.ts:78-83) cannot be reached by a click
  on a character, because the character's own listener calls `stopPropagation`
  (src/game.ts:116).
- **Attack is fixed.** `atk` is never written after the constructor, so it is a
  `const` of `Character`.
- **Removal test.** Removal after a blow tests `hp <= 0` (src/game.ts:206, 215). The
  model keeps that test; `AfterDamage` proves the health is never negative, so the
  test means "the health is 0".

## Model

| member | source | states |
|---|---|---|
| `Stats.Mitigate` | src/game.ts:41 | damage dealt is the least non-negative value at least `amount - def`; it is zero exactly when the attack does not exceed the defence |
| `Stats.AfterDamage` | src/game.ts:42 | health after a blow is never negative, and is either zero or the old health minus the damage |
| `Stats.AfterHeal` | src/game.ts:48 | health after healing never exceeds the maximum, and is either the maximum or the old health plus the amount |
| `Stats.DamageStaysInRange` | src/game.ts:40-45 | from a non-negative health, a blow never raises the health and never takes it below zero |
| `Stats.HealthLost` | src/game.ts:40-45 | the health lost is the smaller of the health and the damage, so the reported damage exceeds the loss exactly on overkill |
| `Stats.HealStaysInRange` | src/game.ts:47-50 | a non-negative heal from a health at most the maximum leaves `old hp <= hp <= maxHp` |
| `Stats.Clamp` | src/game.ts:96-97 | a spawn coordinate ends within `0 .. max(0, extent - 60)`, and an in-range coordinate is kept as it is |
| `Seqs.Without` | src/game.ts:124 | the filtered list no longer holds the removed character, and holds only characters of the old list |
| `Seqs.WithoutKeepsOthers` | src/game.ts:124 | every other character of the old list is still in the filtered list |
| `Seqs.WithoutAbsent` | src/game.ts:124 | removing a character that is not listed leaves the list unchanged |
| `Seqs.WithoutRemovesOne` | src/game.ts:124 | in a list without duplicates, removal deletes exactly the removed character's position and keeps the others in order |
| `Seqs.WithoutKeepsDistinct` | src/game.ts:124 | removal keeps a list free of duplicates |
| `Seqs.AppendKeepsDistinct` | src/game.ts:99-100 | appending a freshly created character keeps the list free of duplicates |
| `Entities.Character.constructor` | src/game.ts:12-18 | a new character has `hp = maxHp` = the card's health, and the card's attack and defence; its id is the card id, a dash and the suffix |
| `Entities.Character.TakeDamage` | src/game.ts:40-45 | returns the mitigated damage and lowers the health by it, floored at zero; the defence is unchanged |
| `Entities.Character.Heal` | src/game.ts:47-50 | raises the health by the amount, capped at the maximum |
| `Targeting.FindById` | src/game.ts:196-199 | null exactly when no character has the id; otherwise a character with that id that comes before every other match |
| `Targeting.Nearest` | src/game.ts:179-194 | the scan's result is a listed character and never the target itself; distances are compared through `DistSq`, the squared distance that stands for `Math.hypot` between box centres (src/game.ts:182-190) |
| `Targeting.NearestNullIff` | src/game.ts:179-194 | the scan finds nothing exactly when every listed character is the target |
| `Targeting.NearestIsClosest` | src/game.ts:185-192 | the character found is at least as close to the target as every other non-target character |
| `Targeting.NearestIsFirst` | src/game.ts:191 | with the strict comparison, the character found comes no later than any other character at the smallest distance |
| `Sessions.Game.constructor` | src/game.ts:61-67 | a new session has no characters, no selection and no pending timers |
| `Sessions.Game.Spawn` | src/game.ts:93-121 | appends a fresh character with the card's stats at the clamped position; earlier entries, selection and timers are unchanged |
| `Sessions.Game.Remove` | src/game.ts:123-127 | the list is the old one with the character filtered out and the rest in order (unchanged if absent); the selection is cleared exactly when it was that character |
| `Sessions.Game.SelectById` | src/game.ts:129-141 | an unknown id changes nothing; the selected character's id clears the selection; otherwise the first character with the id becomes selected |
| `Sessions.Game.ClearSelection` | src/game.ts:143-147 | the selection is empty afterwards and nothing else changes |
| `Sessions.Game.FindNearest` | src/game.ts:179-194 | the loop returns exactly the `Nearest` scan of the live list |
| `Sessions.Game.ResolveAttack` | src/game.ts:204-206 | the target loses the damage its defence lets through from the attacker's attack; it is removed, and deselected if it was selected, exactly when its health is down to zero |
| `Sessions.Game.AutoAttack` | src/game.ts:201-207 | with no other character nothing changes; otherwise only the nearest character's health changes, by the attack's damage, and it is removed when the health is down to zero; no defence changes |
| `Sessions.Game.CommandAttack` | src/game.ts:209-217 | without a selection nothing changes; otherwise the selected character strikes its nearest other character, and the selection and the attacker stay as they were |
| `Sessions.Game.CommandDefend` | src/game.ts:219-231 | with a selection, its defence rises by exactly 5 and a timer recording the old defence is queued; without one nothing changes |
| `Sessions.Game.ExpireDefend` | src/game.ts:229 | the oldest timer restores the defence it recorded and is dequeued; the list and selection are unchanged |
| `Sessions.Game.CommandHeal` | src/game.ts:233-238 | with a selection, its health rises by 20 capped at the maximum and no other health changes; without one nothing changes |
| `Sessions.Game.CameraClick` | src/game.ts:72-90 | a background click clears the selection; a click on a character other than the selected one attacks it; any other click on a character toggles its selection |
| `Scenarios.SelectTwiceFromNone` | src/game.ts:129-147 | selecting the same live character twice from no selection ends with no selection |
| `Scenarios.DefendThenExpire` | src/game.ts:219-231 | one Defend followed by its expiry returns the defence to its original value |
| `Scenarios.DefendTwiceThenExpire` | src/game.ts:219-231 | two overlapping Defends followed by both expiries leave the defence at the original value + 5 |
| `Scenarios.NearestOfThree` | src/game.ts:179-194 | with A at (0,0), B at (10,0) and C at (3,0), the character nearest A is C |
| `Scenarios.WarriorAttacksArcher` | src/game.ts:209-217 | a selected Warrior (atk 20) attacking an Archer (hp 75, def 3) takes it to 58, then to 41 |
| `Scenarios.DefendScenario` | src/game.ts:219-231 | a Defend takes defence 5 to 10, and its expiry brings it back to 5 |
| `Scenarios.LethalBlow` | src/game.ts:201-207 | a blow of 15 on hp 10 with def 0 reports 15 damage, leaves hp 0 and removes the character |

## Left out

- Rendering: element creation and markup, the health bar (`updateHpBar`), the HUD (`updateHudForSelected`), selection highlighting (`updateSelectionVisuals`), floating combat text (`showCombatText`) and the spawn animation. These are presentation only and hold no game state.
- Event-listener wiring (`init`, the `contextmenu`, `dblclick` and `click` listeners, `stopPropagation`). The handlers' bodies are methods called directly: right-click is `Remove`, double-click is `AutoAttack`, a character's click is `SelectById`, and the camera's click is `CameraClick`.
- Real-time delays: the Defend timer is the explicit `ExpireDefend` step. The combat-text timers only move and delete text and are left out.
- The random id suffix: it is the `suffix` parameter, because randomness cannot be verified.
- Box size: every character box is assumed to have one fixed size, the 60-pixel footprint of src/game.ts:96-97, so distances between corners order candidates as distances between centres do. The style sheet is not modelled; a box sized to its content (the name, or the Defend badge shown inside it) would shift its centre and could change which character the scan picks.
- Nearest-target ties: the model breaks an exact tie in distance by list order (the earliest wins). The game compares rounded `Math.hypot` values, which the language allows to be approximate, so on an exact tie its choice depends on the engine's rounding and may be a later candidate.
- Layout geometry and floating point: the camera size is the `width`/`height` parameters of `Spawn`, read at each spawn as in the source. Positions are integers and distances are squared integer distances instead of `Math.hypot`. `FindNearest` tests for a missing best instead of comparing against an initial `Infinity`; the effect is the same.
- `src/ui.ts` (page markup, card catalogue, drag and drop, parsing the dropped card) is glue around `Game` with no logic of its own. It is not part of this model.
- Sessions.Game.Spawn: keeps `HealthInRange` only for a card with non-negative health. The source does not validate the dropped card, and all catalogue cards have positive health.
