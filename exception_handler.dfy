/** The message logic of the global exception handler: reading a constraint name out of the chain
    of causes of a data-integrity failure, choosing the response message from that name, and
    rewriting the message of an illegal-argument failure. A message that may be null is an
    `Option<string>`; the chain of causes is the list of their messages, outermost first. */
module ExceptionHandler {
  import opened Wrappers

  // ----- String helpers of the Java library, on ASCII -----

  /** Character.toUpperCase on ASCII: a lower-case letter becomes its capital, anything else stays. */
  function UpperChar(c: char): char {
    if 'a' <= c <= 'z' then (c as int - 'a' as int + 'A' as int) as char else c
  }

  /** String.toUpperCase, character by character. */
  function ToUpper(s: string): (u: string)
    ensures |u| == |s|
    ensures forall i :: 0 <= i < |s| ==> u[i] == UpperChar(s[i])
  {
    if s == [] then [] else [UpperChar(s[0])] + ToUpper(s[1..])
  }

  /** `pat` occurs in `s` starting at index `i`. */
  predicate OccursAt(s: string, pat: string, i: nat) {
    i + |pat| <= |s| && s[i..i + |pat|] == pat
  }

  /** String.indexOf(pat, from): the first index at or after `from` where `pat` occurs, or -1. */
  function IndexOf(s: string, pat: string, from: nat): (r: int)
    ensures r == -1 || (from <= r && OccursAt(s, pat, r))
    ensures r == -1 ==> forall i :: from <= i ==> !OccursAt(s, pat, i)
    ensures r != -1 ==> forall i :: from <= i < r ==> !OccursAt(s, pat, i)
    decreases |s| - from
  {
    if from + |pat| > |s| then -1
    else if s[from..from + |pat|] == pat then from
    else IndexOf(s, pat, from + 1)
  }

  /** String.contains. */
  predicate Contains(s: string, pat: string) {
    IndexOf(s, pat, 0) != -1
  }

  /** The characters the pattern [A-Z0-9_] accepts. */
  predicate IsNameChar(c: char) {
    ('A' <= c <= 'Z') || ('0' <= c <= '9') || c == '_'
  }

  predicate AllNameChars(s: string) {
    forall i :: 0 <= i < |s| ==> IsNameChar(s[i])
  }

  /** replaceAll("[^A-Z0-9_]", ""): drop every character the pattern rejects, order kept. */
  function KeepNameChars(s: string): (r: string)
    ensures AllNameChars(r)
    ensures |r| <= |s|
  {
    if s == [] then []
    else if IsNameChar(s[0]) then [s[0]] + KeepNameChars(s[1..])
    else KeepNameChars(s[1..])
  }

  /** Filtering distributes over concatenation. */
  lemma {:induction false} KeepNameCharsAppend(a: string, b: string)
    ensures KeepNameChars(a + b) == KeepNameChars(a) + KeepNameChars(b)
  {
    if a != [] {
      assert (a + b)[1..] == a[1..] + b;
      KeepNameCharsAppend(a[1..], b);
    } else {
      assert a + b == b;
    }
  }

  /** Filtering a name that is already clean changes nothing. */
  lemma {:induction false} KeepNameCharsOfName(s: string)
    requires AllNameChars(s)
    ensures KeepNameChars(s) == s
  {
    if s != [] {
      KeepNameCharsOfName(s[1..]);
    }
  }

  /** A single character survives the filter exactly when the pattern accepts it; with
      KeepNameCharsAppend this fixes the filter on every string. */
  lemma KeepNameCharsOfChar(c: char)
    ensures KeepNameChars([c]) == if IsNameChar(c) then [c] else []
  {
  }

  /** The filter keeps every accepted character as often as it occurs and drops every other one. */
  lemma {:induction false} KeepNameCharsCounts(s: string, c: char)
    ensures multiset(KeepNameChars(s))[c] == if IsNameChar(c) then multiset(s)[c] else 0
  {
    if s != [] {
      assert s == [s[0]] + s[1..];
      KeepNameCharsCounts(s[1..], c);
    }
  }

  /** A clean prefix survives the filter as the filtered string's prefix. */
  lemma {:induction false} KeepNameCharsPrefix(s: string, k: nat)
    requires k <= |s| && AllNameChars(s[..k])
    ensures |KeepNameChars(s)| >= k && KeepNameChars(s)[..k] == s[..k]
  {
    if k > 0 {
      assert s[..k][0] == s[0];
      assert s[1..][..k - 1] == s[..k][1..];
      KeepNameCharsPrefix(s[1..], k - 1);
    }
  }

  /** No lower-case ASCII letter. */
  predicate NoLowerCase(s: string) {
    forall i :: 0 <= i < |s| ==> !('a' <= s[i] <= 'z')
  }

  /** Upper-casing a string without lower-case letters changes nothing. */
  lemma UpperOfUpperCase(s: string)
    requires NoLowerCase(s)
    ensures ToUpper(s) == s
  {
    assert forall i :: 0 <= i < |s| ==> ToUpper(s)[i] == s[i];
  }

  /** Upper-casing twice is upper-casing once. */
  lemma UpperIsIdempotent(s: string)
    ensures ToUpper(ToUpper(s)) == ToUpper(s)
  {
    assert NoLowerCase(ToUpper(s));
    UpperOfUpperCase(ToUpper(s));
  }

  /** A clean name has no lower-case letter. */
  lemma NameHasNoLowerCase(s: string)
    requires AllNameChars(s)
    ensures NoLowerCase(s)
  {
    assert forall i :: 0 <= i < |s| ==> IsNameChar(s[i]);
  }

  /** The first occurrence at or after `from` is at `to` when the pattern occurs there and its
      first character does not appear in between. */
  lemma IndexOfAt(s: string, pat: string, from: nat, to: nat)
    requires |pat| > 0 && from <= to && OccursAt(s, pat, to)
    requires forall k :: from <= k < to ==> s[k] != pat[0]
    ensures IndexOf(s, pat, from) == to
  {
    forall i: nat | OccursAt(s, pat, i)
      ensures s[i] == pat[0]
    {
      assert s[i..i + |pat|][0] == s[i];
    }
  }

  /** No occurrence at or after `from` when the pattern's `j`-th character is missing from every
      place it would have to be. */
  lemma IndexOfNone(s: string, pat: string, from: nat, j: nat)
    requires j < |pat|
    requires forall k :: from + j <= k < |s| ==> s[k] != pat[j]
    ensures IndexOf(s, pat, from) == -1
  {
    forall i: nat | OccursAt(s, pat, i)
      ensures s[i + j] == pat[j]
    {
      assert s[i..i + |pat|][j] == s[i + j];
    }
  }

  // ----- extractConstraintName -----

  /** indexOf(" ", start), or the length when there is no further space: the end of the word
      starting at `start`, which holds no space and is followed by one or by the end. */
  function WordEnd(s: string, start: nat): (end: nat)
    requires start <= |s|
    ensures start <= end <= |s|
    ensures forall k :: start <= k < end ==> s[k] != ' '
    ensures end == |s| || s[end] == ' '
  {
    OccursAtOneChar(s, ' ');
    var e := IndexOf(s, " ", start);
    if e == -1 then |s| else e
  }

  /** A one-character pattern occurs exactly where that character stands. */
  lemma OccursAtOneChar(s: string, c: char)
    ensures forall i: nat :: OccursAt(s, [c], i) <==> i < |s| && s[i] == c
  {
    forall i: nat | i < |s|
      ensures OccursAt(s, [c], i) <==> s[i] == c
    {
      assert s[i..i + 1] == [s[i]];
    }
  }

  /** The constraint name one cause's message yields, read on the upper-cased message: from the
      first "CONSTRAINT" to the end of the message, or else the word starting at the first "UK_" up
      to the next space or the end; in both cases filtered down to [A-Z0-9_]. No name when the
      message contains neither. */
  function NameFromMessage(message: string): (name: Option<string>)
    ensures var u := ToUpper(message);
            name.Some? <==> Contains(u, "CONSTRAINT") || Contains(u, "UK_")
    ensures name.Some? ==> AllNameChars(name.value)
  {
    var u := ToUpper(message);
    var idx := IndexOf(u, "CONSTRAINT", 0);
    if idx != -1 then
      Some(KeepNameChars(u[idx..]))
    else if Contains(u, "UK_") then
      var start := IndexOf(u, "UK_", 0);
      Some(KeepNameChars(u[start..WordEnd(u, start)]))
    else
      None
  }

  /** In the first branch the name is the filtered tail starting at the keyword, so it starts with
      "CONSTRAINT". */
  lemma ConstraintBranchStartsWithKeyword(message: string)
    requires Contains(ToUpper(message), "CONSTRAINT")
    ensures var name := NameFromMessage(message);
            name.Some? && |name.value| >= 10 && name.value[..10] == "CONSTRAINT"
  {
    var u := ToUpper(message);
    var tail := u[IndexOf(u, "CONSTRAINT", 0)..];
    assert tail[..10] == "CONSTRAINT";
    KeepNameCharsPrefix(tail, 10);
  }

  /** In the second branch the name is the filtered word at the first "UK_", so it starts with
      "UK_". */
  lemma UkBranchStartsWithPrefix(message: string)
    requires !Contains(ToUpper(message), "CONSTRAINT") && Contains(ToUpper(message), "UK_")
    ensures var name := NameFromMessage(message);
            name.Some? && |name.value| >= 3 && name.value[..3] == "UK_"
  {
    var u := ToUpper(message);
    var start := IndexOf(u, "UK_", 0);
    WordKeepsCleanPrefix(u, "UK_", start);
  }

  /** A clean word without spaces that occurs at `start` is a prefix of the filtered word starting
      there. */
  lemma WordKeepsCleanPrefix(u: string, pat: string, start: nat)
    requires OccursAt(u, pat, start) && AllNameChars(pat)
    ensures start + |pat| <= WordEnd(u, start)
    ensures var name := KeepNameChars(u[start..WordEnd(u, start)]);
            |name| >= |pat| && name[..|pat|] == pat
  {
    var end := WordEnd(u, start);
    var w := u[start..end];
    assert w[..|pat|] == u[start..start + |pat|];
    KeepNameCharsPrefix(w, |pat|);
  }

  /** The name a cause yields: none for a null message. */
  function CauseName(cause: Option<string>): Option<string> {
    if cause.Some? then NameFromMessage(cause.value) else None
  }

  /** The name read from the chain: the first cause that yields one wins, and causes further in are
      not looked at; no cause yielding one gives null. */
  function ConstraintName(chain: seq<Option<string>>): (name: Option<string>)
    ensures name.None? <==> forall i :: 0 <= i < |chain| ==> CauseName(chain[i]).None?
    ensures name.Some? ==> exists i :: 0 <= i < |chain| && name == CauseName(chain[i])
                                       && forall j :: 0 <= j < i ==> CauseName(chain[j]).None?
  {
    if chain == [] then None
    else if CauseName(chain[0]).Some? then CauseName(chain[0])
    else
      var rest := ConstraintName(chain[1..]);
      assert forall i :: 1 <= i < |chain| ==> chain[i] == chain[1..][i - 1];
      rest
  }

  /** Every name read from the chain is clean, so the upper-casing the handler applies to it next
      changes nothing. */
  lemma ConstraintNameIsClean(chain: seq<Option<string>>)
    ensures var name := ConstraintName(chain);
            name.Some? ==> AllNameChars(name.value) && ToUpper(name.value) == name.value
  {
    var name := ConstraintName(chain);
    if name.Some? {
      var i :| 0 <= i < |chain| && name == CauseName(chain[i]);
      NameHasNoLowerCase(name.value);
      UpperOfUpperCase(name.value);
    }
  }

  /** The extraction ignores case: a message and its upper-cased form yield the same name. */
  lemma NameFromMessageIgnoresCase(message: string)
    ensures NameFromMessage(ToUpper(message)) == NameFromMessage(message)
  {
    UpperIsIdempotent(message);
  }

  /** extractConstraintName: walk the chain of causes from the outermost, return the first name a
      message yields, and null when the chain runs out. */
  method ExtractConstraintName(chain: seq<Option<string>>) returns (name: Option<string>)
    ensures name == ConstraintName(chain)
  {
    var i := 0;
    while i < |chain|
      invariant 0 <= i <= |chain|
      invariant ConstraintName(chain[i..]) == ConstraintName(chain)
    {
      if chain[i].Some? {
        var found := NameFromMessage(chain[i].value);
        if found.Some? {
          return found;
        }
      }
      assert chain[i..][1..] == chain[i + 1..];
      i := i + 1;
    }
    return None;
  }

  // ----- handleConstraintViolation -----

  const GenericConstraintMessage := "Database constraint violation"
  const LotNameMessage := "Parking lot with this name already exists"
  const LevelFloorMessage := "This parking lot already has a level with this floor number"
  const SlotNumberMessage := "This level already has a slot with this number"

  /** The message for a constraint name, tested on its upper-cased form in a fixed order: the lot
      name constraint, then the level floor constraint, then the slot number constraint; anything
      else, a null name included, gets the generic message. */
  function ConstraintMessage(constraint: Option<string>): (message: string)
    ensures message in {GenericConstraintMessage, LotNameMessage, LevelFloorMessage, SlotNumberMessage}
    ensures message == LotNameMessage
        <==> constraint.Some? && Contains(ToUpper(constraint.value), "UK_PARKING_LOT_NAME")
    ensures message == LevelFloorMessage
        <==> constraint.Some? && !Contains(ToUpper(constraint.value), "UK_PARKING_LOT_NAME")
             && Contains(ToUpper(constraint.value), "UK_LEVEL_PARKING_LOT_FLOOR")
    ensures message == SlotNumberMessage
        <==> constraint.Some? && !Contains(ToUpper(constraint.value), "UK_PARKING_LOT_NAME")
             && !Contains(ToUpper(constraint.value), "UK_LEVEL_PARKING_LOT_FLOOR")
             && Contains(ToUpper(constraint.value), "UK_SLOT_LEVEL_NUMBER")
  {
    if constraint.None? then GenericConstraintMessage
    else
      var upper := ToUpper(constraint.value);
      if Contains(upper, "UK_PARKING_LOT_NAME") then LotNameMessage
      else if Contains(upper, "UK_LEVEL_PARKING_LOT_FLOOR") then LevelFloorMessage
      else if Contains(upper, "UK_SLOT_LEVEL_NUMBER") then SlotNumberMessage
      else GenericConstraintMessage
  }

  /** handleConstraintViolation: the message starts generic and is replaced when the extracted
      name matches one of the known constraints. */
  method HandleConstraintViolation(chain: seq<Option<string>>) returns (message: string)
    ensures message == ConstraintMessage(ConstraintName(chain))
  {
    var constraint := ExtractConstraintName(chain);
    message := GenericConstraintMessage;
    if constraint.Some? {
      var upper := ToUpper(constraint.value);
      if Contains(upper, "UK_PARKING_LOT_NAME") {
        message := LotNameMessage;
      } else if Contains(upper, "UK_LEVEL_PARKING_LOT_FLOOR") {
        message := LevelFloorMessage;
      } else if Contains(upper, "UK_SLOT_LEVEL_NUMBER") {
        message := SlotNumberMessage;
      }
    }
  }

  /** An occurrence inside a slice is an occurrence in the slice, shifted. */
  lemma OccursInSlice(s: string, pat: string, lo: nat, hi: nat, p: nat)
    requires lo <= p && p + |pat| <= hi <= |s| && OccursAt(s, pat, p)
    ensures OccursAt(s[lo..hi], pat, p - lo)
  {
    var t := s[lo..hi][p - lo..p - lo + |pat|];
    assert forall k :: 0 <= k < |pat| ==> t[k] == pat[k];
    assert t == pat;
  }

  /** A clean name inside a string survives the filter in one piece. */
  lemma FilterKeepsCleanInfix(s: string, name: string, q: nat)
    requires AllNameChars(name) && OccursAt(s, name, q)
    ensures Contains(KeepNameChars(s), name)
  {
    var rest := s[q + |name|..];
    assert s == s[..q] + (name + rest);
    KeepNameCharsAppend(s[..q], name + rest);
    KeepNameCharsAppend(name, rest);
    KeepNameCharsOfName(name);
    var r := KeepNameChars(s);
    var at := |KeepNameChars(s[..q])|;
    assert r[at..at + |name|] == name;
    assert OccursAt(r, name, at);
  }

  /** A clean name anywhere after the first "CONSTRAINT" of the upper-cased message is part of the
      extracted name. */
  lemma NameAfterKeywordIsKept(message: string, name: string, p: nat)
    requires Contains(ToUpper(message), "CONSTRAINT")
    requires AllNameChars(name)
    requires IndexOf(ToUpper(message), "CONSTRAINT", 0) <= p && OccursAt(ToUpper(message), name, p)
    ensures NameFromMessage(message).Some? && Contains(NameFromMessage(message).value, name)
  {
    var u := ToUpper(message);
    var idx := IndexOf(u, "CONSTRAINT", 0);
    OccursInSlice(u, name, idx, |u|, p);
    assert u[idx..|u|] == u[idx..];
    FilterKeepsCleanInfix(u[idx..], name, p - idx);
  }

  /** Without the keyword, a clean name inside the word at the first "UK_" is part of the extracted
      name. */
  lemma NameInWordIsKept(message: string, name: string, p: nat)
    requires !Contains(ToUpper(message), "CONSTRAINT") && Contains(ToUpper(message), "UK_")
    requires AllNameChars(name)
    requires var u := ToUpper(message);
             var start := IndexOf(u, "UK_", 0);
             start <= p && p + |name| <= WordEnd(u, start) && OccursAt(u, name, p)
    ensures NameFromMessage(message).Some? && Contains(NameFromMessage(message).value, name)
  {
    var u := ToUpper(message);
    var start := IndexOf(u, "UK_", 0);
    var end := WordEnd(u, start);
    OccursInSlice(u, name, start, end, p);
    FilterKeepsCleanInfix(u[start..end], name, p - start);
    assert NameFromMessage(message) == Some(KeepNameChars(u[start..end]));
  }

  lemma LotConstraintIsClean()
    ensures AllNameChars("UK_PARKING_LOT_NAME")
  {
  }

  /** A single cause naming the lot constraint after the keyword, in any case, gets the lot
      message, whatever else the message holds. */
  lemma LotNameAfterKeywordGivesLotMessage(message: string, p: nat)
    requires Contains(ToUpper(message), "CONSTRAINT")
    requires IndexOf(ToUpper(message), "CONSTRAINT", 0) <= p && OccursAt(ToUpper(message), "UK_PARKING_LOT_NAME", p)
    ensures ConstraintMessage(ConstraintName([Some(message)])) == LotNameMessage
  {
    LotConstraintIsClean();
    NameAfterKeywordIsKept(message, "UK_PARKING_LOT_NAME", p);
    var name := NameFromMessage(message).value;
    assert ConstraintName([Some(message)]) == Some(name);
    NameHasNoLowerCase(name);
    UpperOfUpperCase(name);
  }

  /** A string shorter than the pattern does not contain it. */
  lemma ShortStringLacksPattern(s: string, pat: string)
    requires |s| < |pat|
    ensures !Contains(s, pat)
  {
  }

  /** A cause that yields a name hides every cause after it. */
  lemma NamingCauseHidesRest(message: string, rest: seq<Option<string>>)
    requires NameFromMessage(message).Some?
    ensures ConstraintName([Some(message)] + rest) == NameFromMessage(message)
  {
    assert ([Some(message)] + rest)[0] == Some(message);
  }

  /** An outer cause that mentions the keyword but names no known constraint wins over whatever
      the inner causes name: the response falls back to the generic message. */
  lemma OuterKeywordShadowsInnerName(outer: string, rest: seq<Option<string>>)
    requires outer == "CONSTRAINT [NULL]"
    ensures ConstraintMessage(ConstraintName([Some(outer)] + rest)) == GenericConstraintMessage
  {
    UpperOfUpperCase(outer);
    IndexOfAt(outer, "CONSTRAINT", 0, 0);
    NamingCauseHidesRest(outer, rest);
    var name := NameFromMessage(outer).value;
    NameHasNoLowerCase(name);
    UpperOfUpperCase(name);
    assert |name| <= 17;
    ShortStringLacksPattern(name, "UK_PARKING_LOT_NAME");
    ShortStringLacksPattern(name, "UK_LEVEL_PARKING_LOT_FLOOR");
    ShortStringLacksPattern(name, "UK_SLOT_LEVEL_NUMBER");
  }

  // ----- handleIllegalArgument -----

  const PlateTypePhrase := "already registered as a different vehicle type"
  const PlateTypeMessage := "This license plate is already registered with a different vehicle type"

  /** handleIllegalArgument: a message containing the plate/type phrase is replaced by the fixed
      message; any other message, and a null one, passes through. */
  function RewriteIllegalArgument(message: Option<string>): (r: Option<string>)
    ensures r.None? <==> message.None?
    ensures message.Some? && Contains(message.value, PlateTypePhrase) ==> r == Some(PlateTypeMessage)
    ensures message.Some? && !Contains(message.value, PlateTypePhrase) ==> r == message
  {
    if message.Some? && Contains(message.value, PlateTypePhrase) then Some(PlateTypeMessage) else message
  }

  /** LicensePlateAlreadyRegisteredException's message for a plate. */
  function PlateRegisteredMessage(licensePlate: string): string {
    "License plate " + licensePlate + " is " + PlateTypePhrase
  }

  /** The phrase the rewrite looks for is the one the plate exception's message carries, whatever
      the plate. */
  lemma PlateRegisteredMessageIsRewritten(licensePlate: string)
    ensures RewriteIllegalArgument(Some(PlateRegisteredMessage(licensePlate))) == Some(PlateTypeMessage)
  {
    var m := PlateRegisteredMessage(licensePlate);
    var at := |"License plate " + licensePlate + " is "|;
    assert m[at..at + |PlateTypePhrase|] == PlateTypePhrase;
    assert OccursAt(m, PlateTypePhrase, at);
  }

}
