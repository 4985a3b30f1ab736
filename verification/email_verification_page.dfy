/** The client side of email verification, `src/pages/EmailVerificationPage.tsx`:
    the list of verified emails kept in local storage under `verified_emails`,
    the redirect guard for `?next=`, the email-shape check before sending a
    code, and the decision taken after the server answers a verification.
    Local storage is a slot holding an already-parsed JSON value; the server's
    answer is a parameter. */
module EmailVerificationPage {
  import opened Wrappers
  import opened Strings

  /** A JSON value, as far as this page looks at it: strings, arrays, and
      anything else (numbers, booleans, null, objects). */
  datatype Json = JString(s: string) | JArray(items: seq<Json>) | JOther

  /** The `verified_emails` slot: absent or empty (`raw` falsy), text that
      `JSON.parse` rejects, or a parsed value. */
  datatype Slot = Missing | Unparsable | Holds(value: Json)

  /** The string elements of a JSON array, in order. */
  function StringsOf(items: seq<Json>): (r: seq<string>)
    ensures |r| <= |items|
    ensures forall s :: s in r <==> JString(s) in items
  {
    if items == [] then []
    else
      var rest := StringsOf(items[1..]);
      assert forall j :: j in items <==> j == items[0] || j in items[1..];
      if items[0].JString? then [items[0].s] + rest else rest
  }

  /** `getVerifiedEmails`: the string elements of the stored array; `[]` for a
      missing slot, unparsable text or a value that is not an array. */
  function VerifiedEmails(slot: Slot): (r: seq<string>)
    ensures !(slot.Holds? && slot.value.JArray?) ==> r == []
    ensures slot.Holds? && slot.value.JArray? ==>
      forall s :: s in r <==> JString(s) in slot.value.items
  {
    match slot
    case Holds(JArray(items)) => StringsOf(items)
    case _ => []
  }

  /** No element occurs twice. */
  predicate Distinct(s: seq<string>) {
    forall i, j :: 0 <= i < j < |s| ==> s[i] != s[j]
  }

  /** `Array.from(new Set(list))`: first occurrences, in order. */
  function Dedup(list: seq<string>): (r: seq<string>)
    ensures Distinct(r)
    ensures forall s :: s in r <==> s in list
    ensures Distinct(list) ==> r == list
    decreases |list|
  {
    if list == [] then []
    else
      var init := Dedup(list[..|list| - 1]);
      var last := list[|list| - 1];
      assert forall s :: s in list <==> s in list[..|list| - 1] || s == last;
      if last in init then init
      else
        assert Distinct(list) ==> last !in list[..|list| - 1];
        init + [last]
  }

  /** Wraps a list of emails as the JSON array written back. */
  function Encode(list: seq<string>): (r: Json)
    ensures r.JArray? && |r.items| == |list|
    ensures forall i :: 0 <= i < |list| ==> r.items[i] == JString(list[i])
  {
    JArray(seq(|list|, i requires 0 <= i < |list| => JString(list[i])))
  }

  /** Reading back what `Encode` wrote gives the same list. */
  lemma {:induction false} StringsOfEncode(list: seq<string>)
    ensures StringsOf(Encode(list).items) == list
    decreases |list|
  {
    if list != [] {
      assert Encode(list).items[1..] == Encode(list[1..]).items;
      StringsOfEncode(list[1..]);
    }
  }

  /** `setEmailVerified`: the stored list as a set, plus the normalised email. */
  function SetEmailVerified(slot: Slot, email: string): (r: Slot)
    ensures r.Holds? && r.value.JArray?
    ensures Distinct(VerifiedEmails(r))
    ensures forall s :: s in VerifiedEmails(r) <==> s in VerifiedEmails(slot) || s == TrimLower(email)
  {
    var list := Dedup(VerifiedEmails(slot) + [TrimLower(email)]);
    StringsOfEncode(list);
    Holds(Encode(list))
  }

  /** `isEmailVerified`: the normalised email is in the stored list. */
  predicate IsEmailVerified(slot: Slot, email: string) {
    TrimLower(email) in VerifiedEmails(slot)
  }

  /** After marking `email`, every spelling with the same trimmed lower-case form
      reads as verified, and every email verified before still is. */
  lemma MarkedIsVerified(slot: Slot, email: string, other: string)
    ensures TrimLower(other) == TrimLower(email) ==> IsEmailVerified(SetEmailVerified(slot, email), other)
    ensures IsEmailVerified(slot, other) ==> IsEmailVerified(SetEmailVerified(slot, email), other)
  {
  }

  /** Marking an email twice stores the same list as marking it once. */
  lemma MarkIdempotent(slot: Slot, email: string)
    ensures SetEmailVerified(SetEmailVerified(slot, email), email) == SetEmailVerified(slot, email)
  {
    var list := Dedup(VerifiedEmails(slot) + [TrimLower(email)]);
    StringsOfEncode(list);
    assert VerifiedEmails(SetEmailVerified(slot, email)) == list;
    assert TrimLower(email) in list;
    DedupAppendPresent(list, TrimLower(email));
  }

  /** Appending an element already present to a distinct list changes nothing after dedup. */
  lemma DedupAppendPresent(list: seq<string>, x: string)
    requires Distinct(list) && x in list
    ensures Dedup(list + [x]) == list
  {
    assert (list + [x])[..|list + [x]| - 1] == list;
  }

  /** `next.startsWith('/') ? next : '/checkout'` with `next` defaulting to `''`. */
  function NextPath(next: Option<string>): (r: string)
    ensures |r| >= 1 && r[0] == '/'
    ensures Truthy(next) && next.value[0] == '/' ==> r == next.value
    ensures !(Truthy(next) && next.value[0] == '/') ==> r == "/checkout"
  {
    var n := if Truthy(next) then next.value else "";
    if |n| >= 1 && n[0] == '/' then n else "/checkout"
  }

  /** The characters the regular-expression `.` does not match. */
  predicate LineTerminator(c: char) {
    c == '\n' || c == '\r' || c == '\U{2028}' || c == '\U{2029}'
  }

  /** No line terminator in `s[lo..hi]`. */
  ghost predicate NoBreak(s: string, lo: int, hi: int) {
    0 <= lo <= hi <= |s| && forall k :: lo <= k < hi ==> !LineTerminator(s[k])
  }

  /** `s` matches `.+@.+\..+` with the '@' at `a` and the '.' at `d`: a character
      before the '@', at least one between it and the '.', one after the '.',
      and no line break from the '@' to the '.'. */
  ghost predicate ShapeAt(s: string, a: int, d: int) {
    1 <= a && a + 2 <= d && d + 2 <= |s| && s[a] == '@' && s[d] == '.'
    && !LineTerminator(s[a - 1]) && !LineTerminator(s[d + 1]) && NoBreak(s, a + 1, d)
  }

  /** `/.+@.+\..+/.test(s)`: the pattern is unanchored, so it matches somewhere. */
  ghost predicate LooksLikeEmail(s: string) {
    exists a, d :: ShapeAt(s, a, d)
  }

  /** Decides `LooksLikeEmail` by trying each '@' and scanning forward for a '.'. */
  method MatchesEmailShape(s: string) returns (ok: bool)
    ensures ok <==> LooksLikeEmail(s)
  {
    var a := 1;
    while a < |s|
      invariant 1 <= a
      invariant forall a', d :: 1 <= a' < a ==> !ShapeAt(s, a', d)
    {
      if s[a] == '@' && !LineTerminator(s[a - 1]) {
        var d := a + 2;
        while d + 2 <= |s| && !LineTerminator(s[d - 1])
          invariant a + 2 <= d
          invariant d <= |s| ==> NoBreak(s, a + 1, d - 1)
          invariant forall d' :: d' < d ==> !ShapeAt(s, a, d')
        {
          if s[d] == '.' && !LineTerminator(s[d + 1]) {
            assert ShapeAt(s, a, d);
            return true;
          }
          d := d + 1;
        }
        forall d' | d' >= d
          ensures !ShapeAt(s, a, d')
        {
          if d' + 2 <= |s| {
            assert LineTerminator(s[d - 1]);
          }
        }
      }
      a := a + 1;
    }
    return false;
  }

  /** What `handleSend` does: nothing is sent unless the trimmed email has the
      shape; otherwise the trimmed email is sent. */
  method HandleSend(email: string) returns (sent: Option<string>)
    ensures sent.Some? <==> LooksLikeEmail(Trim(email))
    ensures sent.Some? ==> sent.value == Trim(email)
  {
    var trimmed := Trim(email);
    var ok := MatchesEmailShape(trimmed);
    if !ok {
      return None;
    }
    return Some(trimmed);
  }

  /** What `handleVerify` leads to. */
  datatype VerifyOutcome =
    | Incomplete                        // "Email and code are required."; no request
    | Refused                           // the server said no; storage untouched
    | Verified(slot: Slot, path: string) // marked verified, then navigate to `path`

  /** `handleVerify`: both trimmed fields must be non-empty; the trimmed values go
      to the server (`verifyCode`), and only its yes marks the email verified and
      redirects to the guarded `next` path. */
  function HandleVerify(slot: Slot, email: string, code: string, next: Option<string>,
                        verifyCode: (string, string) -> bool): (r: VerifyOutcome)
    ensures Trim(email) == "" || Trim(code) == "" <==> r == Incomplete
    ensures r.Refused? <==> Trim(email) != "" && Trim(code) != "" && !verifyCode(Trim(email), Trim(code))
    ensures r.Verified? ==> r.slot == SetEmailVerified(slot, Trim(email)) && r.path == NextPath(next)
  {
    var trimmedEmail := Trim(email);
    var trimmedCode := Trim(code);
    if trimmedEmail == "" || trimmedCode == "" then Incomplete
    else if !verifyCode(trimmedEmail, trimmedCode) then Refused
    else Verified(SetEmailVerified(slot, trimmedEmail), NextPath(next))
  }

  /** After a successful verification the email as typed (untrimmed, any case)
      reads as verified, and the redirect stays inside the site. */
  lemma VerifiedReadsBack(slot: Slot, email: string, code: string, next: Option<string>,
                          verifyCode: (string, string) -> bool)
    requires HandleVerify(slot, email, code, next, verifyCode).Verified?
    ensures IsEmailVerified(HandleVerify(slot, email, code, next, verifyCode).slot, email)
    ensures HandleVerify(slot, email, code, next, verifyCode).path[0] == '/'
  {
    TrimIdempotent(email);
    assert TrimLower(Trim(email)) == TrimLower(email);
  }
}
