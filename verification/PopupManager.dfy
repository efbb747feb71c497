/** The stack of open popups (app/src/lib/popup-manager.ts). */
module PopupManagement {
  import opened Text

  /** Errors are the one type that may be open several times. */
  datatype PopupType = Error | Other(name: string)

  datatype Popup = Popup(kind: PopupType, id: Option<string>, content: string)

  // ---------------------------------------------------------------- what operations do

  function OfType(stack: seq<Popup>, kind: PopupType): seq<Popup> {
    if stack == [] then []
    else (if stack[0].kind == kind then [stack[0]] else []) + OfType(stack[1..], kind)
  }

  function NotOfType(stack: seq<Popup>, kind: PopupType): seq<Popup> {
    if stack == [] then []
    else (if stack[0].kind != kind then [stack[0]] else []) + NotOfType(stack[1..], kind)
  }

  function WithoutId(stack: seq<Popup>, id: string): seq<Popup> {
    if stack == [] then []
    else (if stack[0].id != Some(id) then [stack[0]] else []) + WithoutId(stack[1..], id)
  }

  /** Where the first popup with the id is, or -1 when there is none. */
  function FindId(stack: seq<Popup>, id: string): (r: int)
    ensures -1 <= r < |stack|
    ensures r >= 0 ==> stack[r].id == Some(id) && forall i :: 0 <= i < r ==> stack[i].id != Some(id)
    ensures r == -1 ==> forall i :: 0 <= i < |stack| ==> stack[i].id != Some(id)
  {
    if stack == [] then -1
    else if stack[0].id == Some(id) then 0
    else
      var r := FindId(stack[1..], id);
      if r == -1 then -1 else r + 1
  }

  /** Where the errors of a stack start, its end when there are none. */
  function FirstError(stack: seq<Popup>): (k: nat)
    ensures k <= |stack|
    ensures forall i :: 0 <= i < k ==> stack[i].kind != Error
    ensures k < |stack| ==> stack[k].kind == Error
  {
    if stack == [] || stack[0].kind == Error then 0 else 1 + FirstError(stack[1..])
  }

  /** The oldest popup goes when there are too many. */
  function Trimmed(stack: seq<Popup>, limit: nat): seq<Popup> {
    if |stack| > limit then stack[1..] else stack
  }

  function Inserted(stack: seq<Popup>, popup: Popup): seq<Popup> {
    if stack == [] || stack[|stack| - 1].kind != Error then stack + [popup]
    else NotOfType(stack, Error) + [popup] + OfType(stack, Error)
  }

  datatype Operation =
    | Add(popup: Popup, uuid: string)
    | Update(popup: Popup)
    | Remove(popup: Popup)
    | RemoveByType(kind: PopupType)
    | RemoveById(id: string)

  /** A popup as it is put on the stack: an error is made anew, another keeps an id it has. */
  function Made(popup: Popup, uuid: string): Popup {
    if popup.kind == Error || popup.id == None then popup.(id := Some(uuid)) else popup
  }

  function Apply(stack: seq<Popup>, limit: nat, op: Operation): seq<Popup> {
    match op
    case Add(popup, uuid) =>
      if popup.kind == Error then Trimmed(stack + [Made(popup, uuid)], limit)
      else if OfType(stack, popup.kind) != [] then stack
      else Trimmed(Inserted(stack, Made(popup, uuid)), limit)
    case Update(popup) =>
      if popup.id == None || FindId(stack, popup.id.value) < 0 then stack
      else stack[FindId(stack, popup.id.value) := popup]
    case Remove(popup) => if popup.id == None then stack else WithoutId(stack, popup.id.value)
    case RemoveByType(kind) => NotOfType(stack, kind)
    case RemoveById(id) => WithoutId(stack, id)
  }

  lemma FirstWithId(stack: seq<Popup>, id: Option<string>)
    ensures id.Some? && (forall p :: p in stack ==> p.id != id) ==> FindId(stack, id.value) == -1
    ensures forall k: nat :: id.Some? && k < |stack| && stack[k].id == id && (forall i :: 0 <= i < k ==> stack[i].id != id) ==>
              FindId(stack, id.value) == k
  {
    hide FindId;
  }

  // ---------------------------------------------------------------- the manager

  class PopupManager {
    const popupLimit: nat
    var popupStack: seq<Popup>

    constructor (popupLimit: nat := 50)
      ensures this.popupLimit == popupLimit && popupStack == []
    {
      this.popupLimit := popupLimit;
      popupStack := [];
    }

    method CurrentPopup() returns (r: Option<Popup>)
      ensures r == if popupStack == [] then None else Some(popupStack[|popupStack| - 1])
    {
      r := if |popupStack| == 0 then None else Some(popupStack[|popupStack| - 1]);
    }

    method AddPopup(popupToAdd: Popup, uuid: string) returns (r: Popup)
      modifies this
      ensures popupStack == Apply(old(popupStack), popupLimit, Add(popupToAdd, uuid))
      ensures r == if popupToAdd.kind != Error && OfType(old(popupStack), popupToAdd.kind) != [] then popupToAdd
                   else Made(popupToAdd, uuid)
      ensures Invariant(old(popupStack), popupLimit) ==>
                Invariant(popupStack, popupLimit) && (r in popupStack <==> StaysOnStack(old(popupStack), popupLimit, popupToAdd))
      ensures r.kind == popupToAdd.kind && r.content == popupToAdd.content
      ensures popupToAdd.kind != Error && (exists p :: p in old(popupStack) && p.kind == popupToAdd.kind) ==>
                r == popupToAdd && popupStack == old(popupStack)
      ensures popupToAdd.kind == Error || (forall p :: p in old(popupStack) ==> p.kind != popupToAdd.kind) ==>
                && r.id == (if popupToAdd.kind == Error || popupToAdd.id == None then Some(uuid) else popupToAdd.id)
                && (ErrorsLast(old(popupStack)) ==>
                      var k := if r.kind == Error then |old(popupStack)| else FirstError(old(popupStack));
                      var full := old(popupStack)[..k] + [r] + old(popupStack)[k..];
                      popupStack == if |old(popupStack)| < popupLimit then full else full[1..])
    {
      hide Apply, OfType, NotOfType, Invariant, StaysOnStack, Trimmed, Inserted;
      if Invariant(popupStack, popupLimit) {
        StepKeeps(popupStack, popupLimit, Add(popupToAdd, uuid));
        AddedIsOnStackIff(popupStack, popupLimit, popupToAdd, uuid);
      }
      AppliedAdd(popupStack, popupLimit, popupToAdd, uuid);
      FiltersAre(popupStack, popupToAdd.kind);
      if ErrorsLast(popupStack) {
        AddedStack(popupStack, popupLimit, popupToAdd, uuid);
      }
      if popupToAdd.kind == Error {
        r := AddErrorPopup(popupToAdd.content, uuid);
        return;
      }
      var existingPopup := OfType(popupStack, popupToAdd.kind);
      var popup := if popupToAdd.id == None then popupToAdd.(id := Some(uuid)) else popupToAdd;
      if |existingPopup| > 0 {
        assert existingPopup[0] in existingPopup;
        return popupToAdd;
      }
      InsertBeforeErrorPopups(popup);
      CheckStackLength();
      return popup;
    }

    method InsertBeforeErrorPopups(popup: Popup)
      modifies this
      ensures popupStack == Inserted(old(popupStack), popup)
      ensures multiset(popupStack) == multiset(old(popupStack)) + multiset{popup}
      ensures ErrorsLast(old(popupStack)) ==>
                var k := FirstError(old(popupStack)); popupStack == old(popupStack)[..k] + [popup] + old(popupStack)[k..]
    {
      InsertedAdds(popupStack, popup);
      if ErrorsLast(popupStack) {
        InsertedBeforeErrors(popupStack, popup);
      }
      if |popupStack| == 0 || popupStack[|popupStack| - 1].kind != Error {
        popupStack := popupStack + [popup];
        return;
      }
      var errorPopups := OfType(popupStack, Error);
      var nonErrorPopups := NotOfType(popupStack, Error);
      popupStack := nonErrorPopups + [popup] + errorPopups;
    }

    method AddErrorPopup(error: string, uuid: string) returns (r: Popup)
      modifies this
      ensures r == Popup(Error, Some(uuid), error)
      ensures popupStack == Trimmed(old(popupStack) + [r], popupLimit)
    {
      r := Popup(Error, Some(uuid), error);
      popupStack := popupStack + [r];
      CheckStackLength();
    }

    method CheckStackLength()
      modifies this
      ensures popupStack == Trimmed(old(popupStack), popupLimit)
      ensures |old(popupStack)| <= popupLimit ==> popupStack == old(popupStack)
      ensures |old(popupStack)| == popupLimit + 1 ==>
                |popupStack| == popupLimit && old(popupStack) == [old(popupStack)[0]] + popupStack
      ensures popupStack != [] ==> popupStack[|popupStack| - 1] == old(popupStack)[|old(popupStack)| - 1]
    {
      if |popupStack| > popupLimit {
        popupStack := popupStack[1..];
      }
    }

    method UpdatePopup(popupToUpdate: Popup)
      modifies this
      ensures popupStack == Apply(old(popupStack), popupLimit, Update(popupToUpdate))
      ensures Invariant(old(popupStack), popupLimit) && KeepsType(old(popupStack), Update(popupToUpdate)) ==>
                Invariant(popupStack, popupLimit)
      ensures popupToUpdate.id == None || (forall p :: p in old(popupStack) ==> p.id != popupToUpdate.id) ==>
                popupStack == old(popupStack)
      ensures forall k: nat ::
                popupToUpdate.id.Some? && k < |old(popupStack)| && old(popupStack)[k].id == popupToUpdate.id
                && (forall i :: 0 <= i < k ==> old(popupStack)[i].id != popupToUpdate.id) ==>
                  && |popupStack| == |old(popupStack)| && popupStack[k] == popupToUpdate
                  && forall i :: 0 <= i < |popupStack| && i != k ==> popupStack[i] == old(popupStack)[i]
    {
      hide Invariant, FindId;
      FirstWithId(popupStack, popupToUpdate.id);
      if Invariant(popupStack, popupLimit) && KeepsType(popupStack, Update(popupToUpdate)) {
        StepKeeps(popupStack, popupLimit, Update(popupToUpdate));
      }
      if popupToUpdate.id == None {
        return;
      }
      var index := FindId(popupStack, popupToUpdate.id.value);
      if index < 0 {
        return;
      }
      popupStack := popupStack[..index] + [popupToUpdate] + popupStack[index + 1..];
    }

    method RemovePopup(popup: Popup)
      modifies this
      ensures popupStack == Apply(old(popupStack), popupLimit, Remove(popup))
      ensures forall p :: multiset(popupStack)[p] == if popup.id == None || p.id != popup.id then multiset(old(popupStack))[p] else 0
      ensures IsSubsequence(popupStack, old(popupStack))
      ensures Invariant(old(popupStack), popupLimit) ==> Invariant(popupStack, popupLimit)
    {
      hide IsSubsequence, Invariant, WithoutId, NotOfType;
      if Invariant(popupStack, popupLimit) {
        StepKeeps(popupStack, popupLimit, Remove(popup));
      }
      if popup.id == None {
        SubsequenceRefl(popupStack);
        return;
      }
      WithoutIdLeavesOut(popupStack, popup.id.value);
      popupStack := WithoutId(popupStack, popup.id.value);
    }

    method RemovePopupByType(kind: PopupType)
      modifies this
      ensures popupStack == Apply(old(popupStack), popupLimit, RemoveByType(kind))
      ensures forall p :: multiset(popupStack)[p] == if p.kind != kind then multiset(old(popupStack))[p] else 0
      ensures IsSubsequence(popupStack, old(popupStack))
      ensures Invariant(old(popupStack), popupLimit) ==> Invariant(popupStack, popupLimit)
    {
      hide IsSubsequence, Invariant, WithoutId, NotOfType;
      if Invariant(popupStack, popupLimit) {
        StepKeeps(popupStack, popupLimit, RemoveByType(kind));
      }
      NotOfTypeLeavesOut(popupStack, kind);
      popupStack := NotOfType(popupStack, kind);
    }

    method RemovePopupById(popupId: string)
      modifies this
      ensures popupStack == Apply(old(popupStack), popupLimit, RemoveById(popupId))
      ensures forall p :: multiset(popupStack)[p] == if p.id != Some(popupId) then multiset(old(popupStack))[p] else 0
      ensures IsSubsequence(popupStack, old(popupStack))
      ensures Invariant(old(popupStack), popupLimit) ==> Invariant(popupStack, popupLimit)
    {
      hide IsSubsequence, Invariant, WithoutId, NotOfType;
      if Invariant(popupStack, popupLimit) {
        StepKeeps(popupStack, popupLimit, RemoveById(popupId));
      }
      WithoutIdLeavesOut(popupStack, popupId);
      popupStack := WithoutId(popupStack, popupId);
    }
  }

  // ---------------------------------------------------------------- subsequences

  /** `a` is `b` with some elements left out. */
  predicate IsSubsequence<T(==)>(a: seq<T>, b: seq<T>) {
    || a == []
    || (b != [] && ((a[0] == b[0] && IsSubsequence(a[1..], b[1..])) || IsSubsequence(a, b[1..])))
  }

  lemma {:induction false} SubsequenceRefl<T>(a: seq<T>)
    ensures IsSubsequence(a, a)
  {
    if a != [] {
      SubsequenceRefl(a[1..]);
    }
  }

  lemma {:induction false} SubsequenceTrans<T>(a: seq<T>, b: seq<T>, c: seq<T>)
    requires IsSubsequence(a, b) && IsSubsequence(b, c)
    ensures IsSubsequence(a, c)
    decreases |b| + |c|
  {
    if a != [] {
      if b[0] == c[0] && IsSubsequence(b[1..], c[1..]) {
        if a[0] == b[0] && IsSubsequence(a[1..], b[1..]) {
          SubsequenceTrans(a[1..], b[1..], c[1..]);
        } else {
          SubsequenceTrans(a, b[1..], c[1..]);
        }
      } else {
        SubsequenceTrans(a, b, c[1..]);
      }
    }
  }

  lemma {:induction false} SubsequenceConcat<T>(a: seq<T>, b: seq<T>, x: seq<T>, y: seq<T>)
    requires IsSubsequence(a, b) && IsSubsequence(x, y)
    ensures IsSubsequence(a + x, b + y)
    decreases |b| + |y|
  {
    if a == [] {
      assert a + x == x;
      if b == [] {
        assert b + y == y;
      } else {
        SubsequenceConcat(a, b[1..], x, y);
        assert (b + y)[1..] == b[1..] + y;
      }
    } else {
      assert (b + y)[1..] == b[1..] + y && (a + x)[1..] == a[1..] + x;
      if a[0] == b[0] && IsSubsequence(a[1..], b[1..]) {
        SubsequenceConcat(a[1..], b[1..], x, y);
      } else {
        SubsequenceConcat(a, b[1..], x, y);
      }
    }
  }

  lemma SubsequenceTail<T>(a: seq<T>)
    ensures a != [] ==> IsSubsequence(a[1..], a)
  {
    if a != [] {
      SubsequenceRefl(a[1..]);
    }
  }

  // ---------------------------------------------------------------- invariants

  predicate ErrorsLast(stack: seq<Popup>) {
    forall i, j :: 0 <= i < j < |stack| && stack[i].kind == Error ==> stack[j].kind == Error
  }

  predicate TypesDistinct(stack: seq<Popup>) {
    forall i, j :: 0 <= i < j < |stack| && stack[i].kind == stack[j].kind ==> stack[i].kind == Error
  }

  predicate Invariant(stack: seq<Popup>, limit: nat) {
    |stack| <= limit && ErrorsLast(stack) && TypesDistinct(stack)
  }

  /** The popup shown is an error whenever there is one. */
  lemma ErrorsAreShownFirst(stack: seq<Popup>, limit: nat)
    requires Invariant(stack, limit) && exists p :: p in stack && p.kind == Error
    ensures stack[|stack| - 1].kind == Error
  {
    var i :| 0 <= i < |stack| && stack[i].kind == Error;
    if i < |stack| - 1 {
      assert stack[|stack| - 1].kind == Error;
    }
  }

  /** An update that finds its popup does not change the popup's type. */
  predicate KeepsType(stack: seq<Popup>, op: Operation) {
    op.Update? && op.popup.id.Some? && FindId(stack, op.popup.id.value) >= 0 ==>
      stack[FindId(stack, op.popup.id.value)].kind == op.popup.kind
  }

  lemma {:induction false} SubsequenceElements<T>(a: seq<T>, b: seq<T>)
    requires IsSubsequence(a, b)
    ensures |a| <= |b| && forall x :: x in a ==> x in b
    decreases |b|
  {
    if a != [] {
      if a[0] == b[0] && IsSubsequence(a[1..], b[1..]) {
        SubsequenceElements(a[1..], b[1..]);
        assert forall x :: x in a ==> x == b[0] || x in a[1..];
      } else {
        SubsequenceElements(a, b[1..]);
      }
    }
  }

  /** Leaving popups out keeps the invariant. */
  lemma {:induction false} SubsequenceKeeps(a: seq<Popup>, b: seq<Popup>, limit: nat)
    requires IsSubsequence(a, b) && Invariant(b, limit)
    ensures Invariant(a, limit)
    decreases |b|
  {
    SubsequenceElements(a, b);
    if a != [] {
      if a[0] == b[0] && IsSubsequence(a[1..], b[1..]) {
        SubsequenceKeeps(a[1..], b[1..], limit);
        SubsequenceElements(a[1..], b[1..]);
        assert forall k :: 0 < k < |a| ==> a[k] == a[1..][k - 1] && a[k] in b[1..];
      } else {
        SubsequenceKeeps(a, b[1..], limit);
      }
    }
  }

  lemma {:induction false} FiltersAre(stack: seq<Popup>, kind: PopupType)
    ensures forall p :: p in OfType(stack, kind) <==> p in stack && p.kind == kind
    ensures forall p :: p in NotOfType(stack, kind) <==> p in stack && p.kind != kind
    ensures |OfType(stack, kind)| + |NotOfType(stack, kind)| == |stack|
  {
    if stack != [] {
      FiltersAre(stack[1..], kind);
    }
  }

  lemma {:induction false} NotOfTypeLeavesOut(stack: seq<Popup>, kind: PopupType)
    ensures IsSubsequence(NotOfType(stack, kind), stack)
    ensures forall p :: multiset(NotOfType(stack, kind))[p] == if p.kind != kind then multiset(stack)[p] else 0
  {
    hide IsSubsequence;
    if stack == [] {
      NothingIsSubsequence(stack);
    } else {
      assert stack == [stack[0]] + stack[1..];
      NotOfTypeLeavesOut(stack[1..], kind);
      KeptOrLeftOut(stack, stack[0].kind != kind, NotOfType(stack[1..], kind));
    }
  }

  lemma {:induction false} WithoutIdLeavesOut(stack: seq<Popup>, id: string)
    ensures IsSubsequence(WithoutId(stack, id), stack)
    ensures forall p :: multiset(WithoutId(stack, id))[p] == if p.id != Some(id) then multiset(stack)[p] else 0
  {
    hide IsSubsequence;
    if stack == [] {
      NothingIsSubsequence(stack);
    } else {
      assert stack == [stack[0]] + stack[1..];
      WithoutIdLeavesOut(stack[1..], id);
      KeptOrLeftOut(stack, stack[0].id != Some(id), WithoutId(stack[1..], id));
    }
  }

  lemma KeptOrLeftOut(stack: seq<Popup>, keep: bool, rest: seq<Popup>)
    requires stack != [] && IsSubsequence(rest, stack[1..])
    ensures IsSubsequence((if keep then [stack[0]] else []) + rest, stack)
  {
    if keep {
      assert ([stack[0]] + rest)[1..] == rest;
    } else {
      assert [] + rest == rest;
    }
  }

  lemma TrimmedKeeps(stack: seq<Popup>, limit: nat)
    requires ErrorsLast(stack) && TypesDistinct(stack) && |stack| <= limit + 1
    ensures Invariant(Trimmed(stack, limit), limit)
  {
  }

  lemma InsertedKeeps(stack: seq<Popup>, popup: Popup, limit: nat)
    requires Invariant(stack, limit) && popup.kind != Error && OfType(stack, popup.kind) == []
    ensures var r := Inserted(stack, popup); ErrorsLast(r) && TypesDistinct(r) && |r| == |stack| + 1
  {
    hide OfType, NotOfType, IsSubsequence;
    FiltersAre(stack, Error);
    FiltersAre(stack, popup.kind);
    assert forall p :: p in stack ==> p.kind != popup.kind;
    if stack == [] || stack[|stack| - 1].kind != Error {
      assert forall i :: 0 <= i < |stack| ==> stack[i].kind != Error && stack[i] in stack;
    } else {
      var others, errors := NotOfType(stack, Error), OfType(stack, Error);
      NotOfTypeLeavesOut(stack, Error);
      SubsequenceKeeps(others, stack, limit);
      InsertedBetween(others, popup, errors);
    }
  }

  lemma InsertedBetween(others: seq<Popup>, popup: Popup, errors: seq<Popup>)
    requires TypesDistinct(others) && popup.kind != Error
    requires forall p :: p in others ==> p.kind != Error && p.kind != popup.kind
    requires forall p :: p in errors ==> p.kind == Error
    ensures ErrorsLast(others + [popup] + errors) && TypesDistinct(others + [popup] + errors)
  {
    var r := others + [popup] + errors;
    assert forall i :: 0 <= i < |others| ==> r[i] in others;
    assert forall i :: |others| < i < |r| ==> r[i] in errors;
  }

  lemma {:induction false} FiltersPartition(stack: seq<Popup>, kind: PopupType)
    ensures multiset(NotOfType(stack, kind)) + multiset(OfType(stack, kind)) == multiset(stack)
  {
    if stack != [] {
      assert stack == [stack[0]] + stack[1..];
      FiltersPartition(stack[1..], kind);
    }
  }

  /** When errors are last, the filters cut the stack where they start. */
  lemma {:induction false} FiltersCut(stack: seq<Popup>)
    requires ErrorsLast(stack)
    ensures NotOfType(stack, Error) == stack[..FirstError(stack)] && OfType(stack, Error) == stack[FirstError(stack)..]
  {
    if stack != [] {
      var rest := stack[1..];
      assert forall i :: 0 <= i < |rest| ==> rest[i] == stack[i + 1];
      FiltersCut(rest);
      if stack[0].kind == Error {
        assert FirstError(rest) == 0 && rest[..0] == [] && rest[0..] == rest;
        assert stack[..0] == [] && stack[0..] == stack;
      } else {
        assert stack[..1 + FirstError(rest)] == [stack[0]] + rest[..FirstError(rest)];
        assert stack[1 + FirstError(rest)..] == rest[FirstError(rest)..];
      }
    }
  }

  lemma InsertedAdds(stack: seq<Popup>, popup: Popup)
    ensures multiset(Inserted(stack, popup)) == multiset(stack) + multiset{popup}
  {
    hide OfType, NotOfType;
    FiltersPartition(stack, Error);
  }

  /** A popup that is inserted is put right before the errors, and nothing else moves. */
  lemma InsertedBeforeErrors(stack: seq<Popup>, popup: Popup)
    requires ErrorsLast(stack)
    ensures var k := FirstError(stack); Inserted(stack, popup) == stack[..k] + [popup] + stack[k..]
  {
    hide OfType, NotOfType, ErrorsLast;
    FiltersCut(stack);
    var k := FirstError(stack);
    if stack == [] || stack[|stack| - 1].kind != Error {
      NoErrors(stack);
      assert stack[..k] == stack && stack[k..] == [];
    }
  }

  lemma NoErrors(stack: seq<Popup>)
    requires ErrorsLast(stack) && (stack == [] || stack[|stack| - 1].kind != Error)
    ensures FirstError(stack) == |stack|
  {
  }

  /** Where a popup that is not refused goes, before the oldest goes if there are too many. */
  lemma AddedStack(stack: seq<Popup>, limit: nat, popup: Popup, uuid: string)
    requires ErrorsLast(stack)
    ensures popup.kind == Error || OfType(stack, popup.kind) == [] ==>
              var k := if popup.kind == Error then |stack| else FirstError(stack);
              var full := stack[..k] + [Made(popup, uuid)] + stack[k..];
              Apply(stack, limit, Add(popup, uuid)) == if |stack| < limit then full else full[1..]
  {
    hide OfType, Inserted, ErrorsLast, Made, Apply, Trimmed;
    var made := Made(popup, uuid);
    AppliedAdd(stack, limit, popup, uuid);
    if popup.kind == Error {
      AtEnd(stack, made);
      TrimmedIs(stack + [made], limit);
    } else {
      MadeKind(popup, uuid);
      InsertedBeforeErrors(stack, made);
      TrimmedIs(Inserted(stack, made), limit);
    }
  }

  lemma AtEnd(stack: seq<Popup>, popup: Popup)
    ensures stack[..|stack|] + [popup] + stack[|stack|..] == stack + [popup]
  {
  }

  lemma TrimmedIs(stack: seq<Popup>, limit: nat)
    requires stack != []
    ensures Trimmed(stack, limit) == if |stack| - 1 < limit then stack else stack[1..]
  {
  }

  lemma AppliedAdd(stack: seq<Popup>, limit: nat, popup: Popup, uuid: string)
    ensures Apply(stack, limit, Add(popup, uuid)) ==
            if popup.kind == Error then Trimmed(stack + [Made(popup, uuid)], limit)
            else if OfType(stack, popup.kind) != [] then stack
            else Trimmed(Inserted(stack, Made(popup, uuid)), limit)
  {
  }

  /** Whether the popup that adding returns is on the stack afterwards. A new popup that is
      no error is not when the stack is full of errors: it goes below them and, as the
      oldest, goes at once. */
  predicate StaysOnStack(stack: seq<Popup>, limit: nat, popup: Popup) {
    if popup.kind == Error then limit > 0
    else if OfType(stack, popup.kind) != [] then popup in stack
    else |stack| < limit || (stack != [] && stack[0].kind != Error)
  }

  lemma AddedIsOnStackIff(stack: seq<Popup>, limit: nat, popup: Popup, uuid: string)
    requires Invariant(stack, limit)
    ensures var added := if popup.kind != Error && OfType(stack, popup.kind) != [] then popup else Made(popup, uuid);
            added in Apply(stack, limit, Add(popup, uuid)) <==> StaysOnStack(stack, limit, popup)
  {
    hide OfType, Inserted;
    var made := Made(popup, uuid);
    if popup.kind == Error {
      var r := stack + [made];
      assert limit > 0 ==> Trimmed(r, limit)[|Trimmed(r, limit)| - 1] == made;
    } else if OfType(stack, popup.kind) == [] {
      FiltersAre(stack, popup.kind);
      InsertedBeforeErrors(stack, made);
      TrimmedHolds(stack, FirstError(stack), made, limit);
    }
  }

  lemma TrimmedHolds(stack: seq<Popup>, k: nat, popup: Popup, limit: nat)
    requires k <= |stack| <= limit && popup !in stack
    ensures popup in Trimmed(stack[..k] + [popup] + stack[k..], limit) <==> |stack| < limit || k > 0
  {
    var r := stack[..k] + [popup] + stack[k..];
    assert r[k] == popup && forall i :: 0 <= i < |r| && i != k ==> r[i] in stack;
    if |r| > limit && k > 0 {
      assert r[1..][k - 1] == popup;
    }
  }

  /** A stack full of errors, and a popup that adding drops although it returns it. */
  lemma FullOfErrorsDropsAdded() returns (stack: seq<Popup>, popup: Popup)
    ensures Invariant(stack, 1) && popup.kind != Error && OfType(stack, popup.kind) == []
    ensures forall uuid :: Made(popup, uuid) !in Apply(stack, 1, Add(popup, uuid))
  {
    stack, popup := [Popup(Error, Some("e"), "failed")], Popup(Other("about"), None, "");
    assert stack[1..] == [];
    forall uuid: string
      ensures Made(popup, uuid) !in Apply(stack, 1, Add(popup, uuid))
    {
      AddedIsOnStackIff(stack, 1, popup, uuid);
    }
  }

  lemma StepKeeps(stack: seq<Popup>, limit: nat, op: Operation)
    requires Invariant(stack, limit) && KeepsType(stack, op)
    ensures Invariant(Apply(stack, limit, op), limit)
  {
    hide OfType, NotOfType, WithoutId, IsSubsequence, Inserted;
    match op
    case Add(popup, uuid) =>
      if popup.kind == Error {
        TrimmedKeeps(stack + [Made(popup, uuid)], limit);
      } else if OfType(stack, popup.kind) == [] {
        InsertedKeeps(stack, Made(popup, uuid), limit);
        TrimmedKeeps(Inserted(stack, Made(popup, uuid)), limit);
      }
    case Update(popup) =>
    case Remove(popup) =>
      if popup.id.Some? {
        WithoutIdLeavesOut(stack, popup.id.value);
        SubsequenceKeeps(WithoutId(stack, popup.id.value), stack, limit);
      }
    case RemoveByType(kind) =>
      NotOfTypeLeavesOut(stack, kind);
      SubsequenceKeeps(NotOfType(stack, kind), stack, limit);
    case RemoveById(id) =>
      WithoutIdLeavesOut(stack, id);
      SubsequenceKeeps(WithoutId(stack, id), stack, limit);
  }

  // ---------------------------------------------------------------- order

  type Key = (Option<string>, PopupType)

  function KeyOf(p: Popup): Key {
    (p.id, p.kind)
  }

  /** The ids and types of the errors of a stack, or of the other popups, in order. */
  function Keys(stack: seq<Popup>, errors: bool): seq<Key> {
    if stack == [] then []
    else (if (stack[0].kind == Error) == errors then [KeyOf(stack[0])] else []) + Keys(stack[1..], errors)
  }

  /** The key an operation may add to its group. */
  function AddedKeys(op: Operation, errors: bool): seq<Key> {
    if op.Add? && (op.popup.kind == Error) == errors then [KeyOf(Made(op.popup, op.uuid))] else []
  }

  lemma {:induction false} KeysConcat(a: seq<Popup>, b: seq<Popup>, errors: bool)
    ensures Keys(a + b, errors) == Keys(a, errors) + Keys(b, errors)
  {
    if a == [] {
      assert a + b == b;
    } else {
      var head := if (a[0].kind == Error) == errors then [KeyOf(a[0])] else [];
      assert (a + b)[1..] == a[1..] + b;
      assert Keys(a + b, errors) == head + Keys(a[1..] + b, errors);
      KeysConcat(a[1..], b, errors);
      ConcatAssoc(head, Keys(a[1..], errors), Keys(b, errors));
    }
  }

  lemma {:induction false} SubsequenceKeys(a: seq<Popup>, b: seq<Popup>, errors: bool)
    requires IsSubsequence(a, b)
    ensures IsSubsequence(Keys(a, errors), Keys(b, errors))
    decreases |b|
  {
    if a != [] {
      var head := if (b[0].kind == Error) == errors then [KeyOf(b[0])] else [];
      if a[0] == b[0] && IsSubsequence(a[1..], b[1..]) {
        SubsequenceKeys(a[1..], b[1..], errors);
        SubsequenceRefl(head);
        SubsequenceConcat(head, head, Keys(a[1..], errors), Keys(b[1..], errors));
      } else {
        SubsequenceKeys(a, b[1..], errors);
        SubsequenceConcat([], head, Keys(a, errors), Keys(b[1..], errors));
        assert [] + Keys(a, errors) == Keys(a, errors);
      }
    }
  }

  lemma {:induction false} GroupKeys(stack: seq<Popup>)
    ensures Keys(NotOfType(stack, Error), false) == Keys(stack, false) && Keys(NotOfType(stack, Error), true) == []
    ensures Keys(OfType(stack, Error), true) == Keys(stack, true) && Keys(OfType(stack, Error), false) == []
  {
    if stack != [] {
      GroupKeys(stack[1..]);
      if stack[0].kind == Error {
        assert OfType(stack, Error)[1..] == OfType(stack[1..], Error);
        assert NotOfType(stack, Error) == NotOfType(stack[1..], Error);
      } else {
        assert NotOfType(stack, Error)[1..] == NotOfType(stack[1..], Error);
        assert OfType(stack, Error) == OfType(stack[1..], Error);
      }
    }
  }

  lemma OneKey(popup: Popup, errors: bool)
    ensures Keys([popup], errors) == if (popup.kind == Error) == errors then [KeyOf(popup)] else []
  {
    assert [popup][1..] == [];
  }

  lemma InsertedKeys(stack: seq<Popup>, popup: Popup, errors: bool)
    requires popup.kind != Error
    ensures Keys(Inserted(stack, popup), errors) == Keys(stack, errors) + if errors then [] else [KeyOf(popup)]
  {
    hide Keys;
    OneKey(popup, errors);
    if stack == [] || stack[|stack| - 1].kind != Error {
      KeysConcat(stack, [popup], errors);
    } else {
      GroupKeys(stack);
      KeysConcat(NotOfType(stack, Error), [popup], errors);
      KeysConcat(NotOfType(stack, Error) + [popup], OfType(stack, Error), errors);
    }
  }

  lemma TrimmedKeys(stack: seq<Popup>, limit: nat, errors: bool)
    ensures IsSubsequence(Keys(Trimmed(stack, limit), errors), Keys(stack, errors))
  {
    SubsequenceRefl(stack);
    SubsequenceTail(stack);
    SubsequenceKeys(Trimmed(stack, limit), stack, errors);
  }

  lemma {:induction false} UpdatedKeys(stack: seq<Popup>, k: nat, popup: Popup, errors: bool)
    requires k < |stack| && KeyOf(stack[k]) == KeyOf(popup)
    ensures Keys(stack[k := popup], errors) == Keys(stack, errors)
  {
    if k > 0 {
      UpdatedKeys(stack[1..], k - 1, popup, errors);
      assert stack[k := popup][1..] == stack[1..][k - 1 := popup];
    }
  }

  /** Among errors, and among other popups, an operation keeps the order of those that
      stay, and puts a new one last. */
  lemma StepKeepsOrder(stack: seq<Popup>, limit: nat, op: Operation, errors: bool)
    requires KeepsType(stack, op)
    ensures IsSubsequence(Keys(Apply(stack, limit, op), errors), Keys(stack, errors) + AddedKeys(op, errors))
  {
    hide OfType, NotOfType, WithoutId, IsSubsequence, Inserted, Keys, Trimmed, Made;
    var before, added := Keys(stack, errors), AddedKeys(op, errors);
    SubsequenceRefl(before);
    NothingIsSubsequence(added);
    SubsequenceConcat(before, before, [], added);
    assert before + [] == before;
    match op
    case Add(popup, uuid) =>
      var made := Made(popup, uuid);
      MadeKind(popup, uuid);
      if popup.kind == Error {
        KeysConcat(stack, [made], errors);
        OneKey(made, errors);
        TrimmedKeys(stack + [made], limit, errors);
      } else if OfType(stack, popup.kind) == [] {
        InsertedKeys(stack, made, errors);
        TrimmedKeys(Inserted(stack, made), limit, errors);
      }
    case Update(popup) =>
      if popup.id.Some? && FindId(stack, popup.id.value) >= 0 {
        UpdatedKeys(stack, FindId(stack, popup.id.value), popup, errors);
      }
    case Remove(popup) =>
      if popup.id.Some? {
        WithoutIdLeavesOut(stack, popup.id.value);
        SubsequenceKeys(WithoutId(stack, popup.id.value), stack, errors);
      }
    case RemoveByType(kind) =>
      NotOfTypeLeavesOut(stack, kind);
      SubsequenceKeys(NotOfType(stack, kind), stack, errors);
    case RemoveById(id) =>
      WithoutIdLeavesOut(stack, id);
      SubsequenceKeys(WithoutId(stack, id), stack, errors);
  }

  lemma NothingIsSubsequence<T>(a: seq<T>)
    ensures IsSubsequence([], a)
  {
  }

  lemma MadeKind(popup: Popup, uuid: string)
    ensures Made(popup, uuid).kind == popup.kind
  {
  }

  // ---------------------------------------------------------------- runs

  function Run(stack: seq<Popup>, limit: nat, ops: seq<Operation>): seq<Popup>
    decreases |ops|
  {
    if ops == [] then stack else Run(Apply(stack, limit, ops[0]), limit, ops[1..])
  }

  predicate KeepsTypes(stack: seq<Popup>, limit: nat, ops: seq<Operation>)
    decreases |ops|
  {
    ops == [] || (KeepsType(stack, ops[0]) && KeepsTypes(Apply(stack, limit, ops[0]), limit, ops[1..]))
  }

  function AllAddedKeys(ops: seq<Operation>, errors: bool): seq<Key> {
    if ops == [] then [] else AddedKeys(ops[0], errors) + AllAddedKeys(ops[1..], errors)
  }

  /** Over every run whose updates keep the popup's type, from any good stack: it never
      exceeds the limit, errors are last, each other type is there at most once, and
      errors, and the other popups, are in the order in which they were there or added. */
  lemma {:induction false} RunsKeepInvariant(stack: seq<Popup>, limit: nat, ops: seq<Operation>, errors: bool)
    requires Invariant(stack, limit) && KeepsTypes(stack, limit, ops)
    ensures Invariant(Run(stack, limit, ops), limit)
    ensures IsSubsequence(Keys(Run(stack, limit, ops), errors), Keys(stack, errors) + AllAddedKeys(ops, errors))
    decreases |ops|
  {
    hide Apply, Keys, Invariant, IsSubsequence, KeepsType, AddedKeys;
    if ops == [] {
      SubsequenceRefl(Keys(stack, errors));
      assert Keys(stack, errors) + [] == Keys(stack, errors);
    } else {
      var next := Apply(stack, limit, ops[0]);
      StepKeeps(stack, limit, ops[0]);
      RunsKeepInvariant(next, limit, ops[1..], errors);
      StepKeepsOrder(stack, limit, ops[0], errors);
      var later := AllAddedKeys(ops[1..], errors);
      SubsequenceRefl(later);
      SubsequenceConcat(Keys(next, errors), Keys(stack, errors) + AddedKeys(ops[0], errors), later, later);
      ConcatAssoc(Keys(stack, errors), AddedKeys(ops[0], errors), later);
      SubsequenceTrans(Keys(Run(next, limit, ops[1..]), errors), Keys(next, errors) + later,
                       Keys(stack, errors) + AllAddedKeys(ops, errors));
    }
  }
}
