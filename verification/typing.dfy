/** The typed-text rotation: a self-rescheduling timer callback that types
    the current role one character at a time, pauses, deletes it one
    character at a time, pauses, and moves on to the next role.

    Time is not modelled: each tick returns the text it renders and the
    delay it asks the host timer for before the next tick. */
module TypingAnimation {

  /** The fixed rotation sequence. */
  const Roles: seq<string> := ["Full Stack Developer", "AI/ML Enthusiast", "Problem Solver", "Tech Explorer"]

  const TypeDelay: nat := 100      // after typing a character
  const DeleteDelay: nat := 50     // after deleting a character
  const FullPause: nat := 2000     // after the whole role is shown
  const EmptyPause: nat := 500     // after the role is fully erased
  const StartDelay: nat := 1000    // before the very first tick

  /** The closure variables of the animator (typingSpeed is the delay of a Frame). */
  datatype TypingState = TypingState(roleIndex: nat, charIndex: int, isDeleting: bool)

  /** What one tick produces: the rendered text and the delay before the next tick. */
  datatype Frame = Frame(text: string, delay: nat)

  const Start: TypingState := TypingState(0, 0, false)

  /** Every role can be typed: the list is non-empty and no role is empty. */
  predicate RolesOk(roles: seq<string>) {
    |roles| > 0 && forall i :: 0 <= i < |roles| ==> |roles[i]| > 0
  }

  /** String.prototype.substring: both bounds clamped to [0, |s|], swapped when reversed. */
  function Substring(s: string, start: int, end: int): (r: string)
    ensures |r| <= |s|
    ensures 0 <= start <= end <= |s| ==> r == s[start..end]
    ensures end <= 0 && start <= 0 ==> r == []
    ensures start <= 0 <= end <= |s| ==> r == s[..end]
    ensures 0 <= start <= |s| <= end ==> r == s[start..]
    ensures 0 <= end <= start <= |s| ==> r == s[end..start]
  {
    var a := if start < 0 then 0 else if start > |s| then |s| else start;
    var b := if end < 0 then 0 else if end > |s| then |s| else end;
    if a <= b then s[a..b] else s[b..a]
  }

  /** The role after role i in a rotation of n roles. */
  function NextRole(i: nat, n: nat): nat {
    if i + 1 < n then i + 1 else 0
  }

  /** NextRole is the source's `(roleIndex + 1) % roles.length` for every valid index. */
  lemma NextRoleIsModulo(i: nat, n: nat)
    requires i < n
    ensures NextRole(i, n) == (i + 1) % n
    ensures NextRole(i, n) < n
  {
    if i + 1 == n {
      assert (i + 1) % n == 0;
    } else {
      assert (i + 1) % n == i + 1;
    }
  }

  /** The state change of one call of the timer callback: charIndex moves one
      character, and the direction flips at the ends, moving to the next role
      after a role has been erased. */
  function Next(roles: seq<string>, s: TypingState): (t: TypingState)
    requires s.roleIndex < |roles|
    ensures t.roleIndex < |roles|
  {
    var c := if s.isDeleting then s.charIndex - 1 else s.charIndex + 1;
    if !s.isDeleting && c == |roles[s.roleIndex]| then TypingState(s.roleIndex, c, true)
    else if s.isDeleting && c == 0 then TypingState(NextRole(s.roleIndex, |roles|), c, false)
    else TypingState(s.roleIndex, c, s.isDeleting)
  }

  /** What the same call renders, and the delay it schedules the next call with. */
  function Render(roles: seq<string>, s: TypingState): (f: Frame)
    requires s.roleIndex < |roles|
  {
    var role := roles[s.roleIndex];
    var text := if s.isDeleting then Substring(role, 0, s.charIndex - 1) else Substring(role, 0, s.charIndex + 1);
    var delay :=
      if !s.isDeleting && s.charIndex + 1 == |role| then FullPause
      else if s.isDeleting && s.charIndex - 1 == 0 then EmptyPause
      else if s.isDeleting then DeleteDelay
      else TypeDelay;
    Frame(text, delay)
  }

  /** The animator's invariant: the index is valid, charIndex stays inside the
      current role, a deleting state has something left to delete and a typing
      state has something left to type. */
  ghost predicate Inv(roles: seq<string>, s: TypingState) {
    && s.roleIndex < |roles|
    && 0 <= s.charIndex <= |roles[s.roleIndex]|
    && (s.isDeleting ==> s.charIndex >= 1)
    && (!s.isDeleting ==> s.charIndex < |roles[s.roleIndex]|)
  }

  /** The state after n ticks. */
  function Run(roles: seq<string>, s: TypingState, n: nat): (r: TypingState)
    requires s.roleIndex < |roles|
    ensures r.roleIndex < |roles|
    decreases n
  {
    if n == 0 then s else Run(roles, Next(roles, s), n - 1)
  }

  /** The frames rendered by n ticks, in order. */
  function Trace(roles: seq<string>, s: TypingState, n: nat): (r: seq<Frame>)
    requires s.roleIndex < |roles|
    ensures |r| == n
    decreases n
  {
    if n == 0 then [] else [Render(roles, s)] + Trace(roles, Next(roles, s), n - 1)
  }

  /** The frames of typing `role` on from c characters: one more character per
      tick, the last one (the whole role) with the long pause. */
  function TypingFrames(role: string, c: nat): (r: seq<Frame>)
    requires c <= |role|
    ensures |r| == |role| - c
    decreases |role| - c
  {
    if c == |role| then []
    else [Frame(role[..c + 1], if c + 1 == |role| then FullPause else TypeDelay)] + TypingFrames(role, c + 1)
  }

  /** The frames of erasing `role` from c characters: one character fewer per
      tick, the last one (the empty text) with the short pause. */
  function DeletingFrames(role: string, c: nat): (r: seq<Frame>)
    requires c <= |role|
    ensures |r| == c
  {
    if c == 0 then []
    else [Frame(role[..c - 1], if c == 1 then EmptyPause else DeleteDelay)] + DeletingFrames(role, c - 1)
  }

  /** The k-th typing frame shows the first c + k + 1 characters. */
  lemma {:induction false} TypingFramesAt(role: string, c: nat, k: nat)
    requires c + k < |role|
    ensures TypingFrames(role, c)[k] == Frame(role[..c + k + 1], if c + k + 1 == |role| then FullPause else TypeDelay)
    decreases k
  {
    if k > 0 {
      TypingFramesAt(role, c + 1, k - 1);
    }
  }

  /** The k-th deleting frame shows the first c - 1 - k characters. */
  lemma {:induction false} DeletingFramesAt(role: string, c: nat, k: nat)
    requires k < c <= |role|
    ensures DeletingFrames(role, c)[k] == Frame(role[..c - 1 - k], if k + 1 == c then EmptyPause else DeleteDelay)
    decreases k
  {
    if k > 0 {
      DeletingFramesAt(role, c - 1, k - 1);
    }
  }

  /** The number of ticks one pass over roles[i..] takes: two per character. */
  function PassLength(roles: seq<string>, i: nat): nat
    requires i <= |roles|
    decreases |roles| - i
  {
    if i == |roles| then 0 else 2 * |roles[i]| + PassLength(roles, i + 1)
  }

  /** Splitting off one pass from k passes: k * p == p + (k - 1) * p. */
  lemma PeelPass(k: nat, p: nat)
    requires k > 0
    ensures k * p == p + (k - 1) * p
  {
  }

  lemma RolesAreOk()
    ensures RolesOk(Roles)
  {
  }

  /** A tick keeps the invariant and renders exactly the prefix of the current role that charIndex now counts. */
  lemma TickKeepsInv(roles: seq<string>, s: TypingState)
    requires RolesOk(roles) && Inv(roles, s)
    ensures Inv(roles, Next(roles, s))
    ensures Render(roles, s).text == roles[s.roleIndex][..Next(roles, s).charIndex]
  {
  }

  /** The typing tick: one more character, delay 100, or the long pause exactly when the role is complete. */
  lemma TypingTick(roles: seq<string>, s: TypingState)
    requires RolesOk(roles) && Inv(roles, s) && !s.isDeleting
    ensures var t, f := Next(roles, s), Render(roles, s);
      && t.roleIndex == s.roleIndex
      && t.charIndex == s.charIndex + 1
      && f.text == roles[s.roleIndex][..s.charIndex + 1]
      && (t.isDeleting <==> s.charIndex + 1 == |roles[s.roleIndex]|)
      && f.delay == (if t.isDeleting then FullPause else TypeDelay)
  {
  }

  /** The deleting tick: one character fewer, delay 50, or the short pause and the next role exactly when empty. */
  lemma DeletingTick(roles: seq<string>, s: TypingState)
    requires RolesOk(roles) && Inv(roles, s) && s.isDeleting
    ensures var t, f := Next(roles, s), Render(roles, s);
      && t.charIndex == s.charIndex - 1
      && f.text == roles[s.roleIndex][..s.charIndex - 1]
      && (!t.isDeleting <==> s.charIndex == 1)
      && t.roleIndex == (if t.isDeleting then s.roleIndex else (s.roleIndex + 1) % |roles|)
      && f.delay == (if t.isDeleting then DeleteDelay else EmptyPause)
  {
  }

  /** The start state satisfies the invariant, and so does every state reached from it. */
  lemma {:induction false} RunKeepsInv(roles: seq<string>, s: TypingState, n: nat)
    requires RolesOk(roles) && Inv(roles, s)
    ensures Inv(roles, Run(roles, s, n))
    decreases n
  {
    if n > 0 {
      TickKeepsInv(roles, s);
      RunKeepsInv(roles, Next(roles, s), n - 1);
    }
  }

  lemma {:induction false} RunAdd(roles: seq<string>, s: TypingState, a: nat, b: nat)
    requires s.roleIndex < |roles|
    ensures Run(roles, s, a + b) == Run(roles, Run(roles, s, a), b)
    decreases a
  {
    if a > 0 {
      RunAdd(roles, Next(roles, s), a - 1, b);
      assert a + b - 1 == (a - 1) + b;
    }
  }

  lemma {:induction false} TraceAdd(roles: seq<string>, s: TypingState, a: nat, b: nat)
    requires s.roleIndex < |roles|
    ensures Trace(roles, s, a + b) == Trace(roles, s, a) + Trace(roles, Run(roles, s, a), b)
    decreases a
  {
    if a > 0 {
      TraceAdd(roles, Next(roles, s), a - 1, b);
      assert a + b - 1 == (a - 1) + b;
    }
  }

  /** Typing from charIndex c runs to the full role, one prefix per tick. */
  lemma {:induction false} TypingPhase(roles: seq<string>, i: nat, c: nat)
    requires RolesOk(roles) && i < |roles| && c < |roles[i]|
    ensures Run(roles, TypingState(i, c, false), |roles[i]| - c) == TypingState(i, |roles[i]|, true)
    ensures Trace(roles, TypingState(i, c, false), |roles[i]| - c) == TypingFrames(roles[i], c)
    decreases |roles[i]| - c
  {
    var s := TypingState(i, c, false);
    var role := roles[i];
    assert Render(roles, s) == Frame(role[..c + 1], if c + 1 == |role| then FullPause else TypeDelay);
    if c + 1 < |role| {
      assert Next(roles, s) == TypingState(i, c + 1, false);
      TypingPhase(roles, i, c + 1);
    }
  }

  /** Deleting from charIndex c empties the role one character per tick and hands over to the next role. */
  lemma {:induction false} DeletingPhase(roles: seq<string>, i: nat, c: nat)
    requires RolesOk(roles) && i < |roles| && 1 <= c <= |roles[i]|
    ensures Run(roles, TypingState(i, c, true), c) == TypingState(NextRole(i, |roles|), 0, false)
    ensures Trace(roles, TypingState(i, c, true), c) == DeletingFrames(roles[i], c)
    decreases c
  {
    var s := TypingState(i, c, true);
    var role := roles[i];
    assert Render(roles, s) == Frame(role[..c - 1], if c == 1 then EmptyPause else DeleteDelay);
    if c > 1 {
      assert Next(roles, s) == TypingState(i, c - 1, true);
      DeletingPhase(roles, i, c - 1);
    }
  }

  /** One full cycle for role i: it is typed out and erased completely, and only then
      does role (i+1) mod |roles| start, from its first character. */
  lemma RoleCycle(roles: seq<string>, i: nat)
    requires RolesOk(roles) && i < |roles|
    ensures Run(roles, TypingState(i, 0, false), 2 * |roles[i]|) == TypingState(NextRole(i, |roles|), 0, false)
    ensures Trace(roles, TypingState(i, 0, false), 2 * |roles[i]|) == TypingFrames(roles[i], 0) + DeletingFrames(roles[i], |roles[i]|)
  {
    var n := |roles[i]|;
    TypingPhase(roles, i, 0);
    DeletingPhase(roles, i, n);
    RunAdd(roles, TypingState(i, 0, false), n, n);
    TraceAdd(roles, TypingState(i, 0, false), n, n);
  }

  /** Starting at role i, the rest of the pass ends back at the first role with nothing typed. */
  lemma {:induction false} PassFrom(roles: seq<string>, i: nat)
    requires RolesOk(roles) && i < |roles|
    ensures Run(roles, TypingState(i, 0, false), PassLength(roles, i)) == Start
    decreases |roles| - i
  {
    var s := TypingState(i, 0, false);
    var n, rest := 2 * |roles[i]|, PassLength(roles, i + 1);
    assert PassLength(roles, i) == n + rest;
    RoleCycle(roles, i);
    RunAdd(roles, s, n, rest);
    if i + 1 < |roles| {
      PassFrom(roles, i + 1);
    } else {
      assert rest == 0;
    }
  }

  /** A state that recurs after p ticks recurs after every multiple of p ticks. */
  lemma {:induction false} RunRepeats(roles: seq<string>, s: TypingState, p: nat, k: nat)
    requires s.roleIndex < |roles| && Run(roles, s, p) == s
    ensures Run(roles, s, k * p) == s
    decreases k
  {
    if k > 0 {
      PeelPass(k, p);
      RunAdd(roles, s, p, (k - 1) * p);
      RunRepeats(roles, s, p, k - 1);
    }
  }

  /** The rotation is cyclic and never ends: after k full passes the animator is back at the start. */
  lemma RotationRepeats(roles: seq<string>, k: nat)
    requires RolesOk(roles)
    ensures Run(roles, Start, k * PassLength(roles, 0)) == Start
  {
    PassFrom(roles, 0);
    RunRepeats(roles, Start, PassLength(roles, 0), k);
  }

  /** The two-role scenario: "A" is typed and paused on, erased and paused on, then "BB" begins. */
  lemma TwoRoleScenario()
    ensures Trace(["A", "BB"], Start, 4) ==
      [Frame("A", FullPause), Frame("", EmptyPause), Frame("B", TypeDelay), Frame("BB", FullPause)]
  {
    var roles := ["A", "BB"];
    RoleCycle(roles, 0);
    TypingPhase(roles, 1, 0);
    TraceAdd(roles, Start, 2, 2);
    assert "A"[..1] == "A" && "A"[..0] == "" && "BB"[..1] == "B" && "BB"[..2] == "BB";
    assert TypingFrames("A", 0) == [Frame("A", FullPause)];
    assert DeletingFrames("A", 1) == [Frame("", EmptyPause)];
    assert TypingFrames("BB", 0) == [Frame("B", TypeDelay), Frame("BB", FullPause)];
  }

  /** The animator: the closure of initializeTypingAnimation as an object. */
  class TypingAnimator {
    const roles: seq<string>
    var roleIndex: nat
    var charIndex: int
    var isDeleting: bool
    var typingSpeed: nat

    function State(): TypingState
      reads this
    {
      TypingState(roleIndex, charIndex, isDeleting)
    }

    ghost predicate Valid()
      reads this
    {
      RolesOk(roles) && Inv(roles, State())
    }

    constructor (roles: seq<string>)
      requires RolesOk(roles)
      ensures Valid() && this.roles == roles
      ensures State() == Start && typingSpeed == TypeDelay
    {
      this.roles := roles;
      roleIndex, charIndex, isDeleting := 0, 0, false;
      typingSpeed := TypeDelay;
    }

    /** One timer callback: renders `text` and asks to be called again after `delay`. */
    method Tick() returns (text: string, delay: nat)
      requires Valid()
      modifies this
      ensures Valid()
      ensures State() == Next(roles, old(State())) && Frame(text, delay) == Render(roles, old(State()))
      ensures text == roles[old(roleIndex)][..charIndex]
      ensures typingSpeed == delay
    {
      TickKeepsInv(roles, State());
      var currentRole := roles[roleIndex];
      if isDeleting {
        text := Substring(currentRole, 0, charIndex - 1);
        charIndex := charIndex - 1;
        typingSpeed := DeleteDelay;
      } else {
        text := Substring(currentRole, 0, charIndex + 1);
        charIndex := charIndex + 1;
        typingSpeed := TypeDelay;
      }
      if !isDeleting && charIndex == |currentRole| {
        isDeleting := true;
        typingSpeed := FullPause;
      } else if isDeleting && charIndex == 0 {
        isDeleting := false;
        NextRoleIsModulo(roleIndex, |roles|);
        roleIndex := (roleIndex + 1) % |roles|;
        typingSpeed := EmptyPause;
      }
      delay := typingSpeed;
    }
  }

  /** Start-up: without a display target nothing starts; otherwise a fresh animator
      whose first tick is scheduled after StartDelay. */
  method InitializeTypingAnimation(hasTarget: bool) returns (animator: TypingAnimator?, firstDelay: nat)
    ensures hasTarget <==> animator != null
    ensures animator != null ==> fresh(animator) && animator.Valid() && animator.roles == Roles
    ensures animator != null ==> animator.State() == Start && firstDelay == StartDelay
  {
    if !hasTarget {
      return null, 0;
    }
    RolesAreOk();
    animator := new TypingAnimator(Roles);
    firstDelay := StartDelay;
  }
}
