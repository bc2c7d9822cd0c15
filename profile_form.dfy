/**
 * The profile form's own logic: the username input is sanitised as it is
 * typed, a new username is classified before the server is asked whether it
 * is free, and submitting creates (POST) or updates (PUT) the profile.
 */
module ProfileForm {
  import opened Wrappers
  import opened Types
  import opened Strings
  import opened ProfileRoute

  // ---------------------------------------------------------------------
  // The sanitiser

  /** `s.replace(/[^a-z0-9-]/g, '')`: the characters outside `[a-z0-9-]` dropped. */
  function KeepUsernameChars(s: string): (r: string)
    ensures UsernameChars(r)
    ensures |r| <= |s|
    ensures |s| == 1 ==> r == if IsUsernameChar(s[0]) then s else []
  {
    if s == [] then []
    else (if IsUsernameChar(s[0]) then [s[0]] else []) + KeepUsernameChars(s[1..])
  }

  /** The filter works character by character: filtering a concatenation concatenates the filtered parts. */
  lemma {:induction false} KeepUsernameCharsAppend(a: string, b: string)
    ensures KeepUsernameChars(a + b) == KeepUsernameChars(a) + KeepUsernameChars(b)
    decreases |a|
  {
    if a == [] {
      assert a + b == b;
    } else {
      assert (a + b)[0] == a[0] && (a + b)[1..] == a[1..] + b;
      KeepUsernameCharsAppend(a[1..], b);
    }
  }

  /** The input sanitiser: lower-case, then keep only letters, digits and hyphens. */
  function Sanitize(s: string): (r: string)
    ensures UsernameChars(r)
    ensures |s| == 1 ==> r == if IsUsernameChar(LowerChar(s[0])) then [LowerChar(s[0])] else []
  {
    KeepUsernameChars(Lower(s))
  }

  /** Sanitising a concatenation sanitises each part: every character is lower-cased and then kept or dropped on its own. */
  lemma SanitizeAppend(a: string, b: string)
    ensures Sanitize(a + b) == Sanitize(a) + Sanitize(b)
  {
    assert Lower(a + b) == Lower(a) + Lower(b);
    KeepUsernameCharsAppend(Lower(a), Lower(b));
  }

  /** A string made only of allowed characters is kept whole. */
  lemma {:induction false} KeepAllowed(s: string)
    requires UsernameChars(s)
    ensures KeepUsernameChars(s) == s
    decreases |s|
  {
    if s != [] {
      KeepAllowed(s[1..]);
      assert s == [s[0]] + s[1..];
    }
  }

  /** Allowed characters have no upper-case letters, so lower-casing keeps them. */
  lemma LowerOfAllowed(s: string)
    requires UsernameChars(s)
    ensures Lower(s) == s
  {
    forall i | 0 <= i < |s| ensures Lower(s)[i] == s[i] {
      assert IsUsernameChar(s[i]);
    }
  }

  /** Sanitising twice is sanitising once. */
  lemma SanitizeIdempotent(s: string)
    ensures Sanitize(Sanitize(s)) == Sanitize(s)
  {
    var once := Sanitize(s);
    LowerOfAllowed(once);
    KeepAllowed(once);
  }

  /** Sanitising leaves a valid username as it is. */
  lemma SanitizeKeepsValid(s: string)
    requires UsernamePattern(s)
    ensures Sanitize(s) == s
  {
    UsernamePatternAccepts(s);
    LowerOfAllowed(s);
    KeepAllowed(s);
  }

  // ---------------------------------------------------------------------
  // Classifying the username

  datatype UsernameStatus = Idle | Checking | Available | Taken | Invalid

  /** `^[a-z0-9][a-z0-9-]*[a-z0-9]$`. */
  predicate ClientPattern(s: string)
  {
    2 <= |s| && IsLowerAlnum(s[0]) && UsernameChars(s[1..|s| - 1]) && IsLowerAlnum(s[|s| - 1])
  }

  /** Before asking the server: short values are idle, malformed or long ones invalid, the rest are checked. */
  function Classify(value: string): (r: UsernameStatus)
    ensures r == Idle <==> |value| < 3
    ensures r == Idle || r == Invalid || r == Checking
  {
    if |value| < 3 then Idle
    else if !ClientPattern(value) || |value| > 40 then Invalid
    else Checking
  }

  /** From three characters on, the form accepts exactly the usernames the server accepts. */
  lemma ClientAgreesWithServer(s: string)
    requires 3 <= |s|
    ensures Classify(s) == Checking <==> UsernamePattern(s)
  {
  }

  /** A sanitised value of 3 to 40 characters is invalid exactly when it starts or ends with a hyphen. */
  lemma SanitizedInvalidMeansHyphenEdge(raw: string)
    requires 3 <= |Sanitize(raw)| <= 40
    ensures Classify(Sanitize(raw)) == Invalid <==>
      Sanitize(raw)[0] == '-' || Sanitize(raw)[|Sanitize(raw)| - 1] == '-'
  {
    var s := Sanitize(raw);
    ClientAgreesWithServer(s);
    UsernamePatternAccepts(s);
  }

  // ---------------------------------------------------------------------
  // The form state

  /** The outcome of a save request: success, or the server's error text (possibly empty). */
  datatype SaveOutcome = Saved | Failed(error: string)

  class Form {
    const isNew: bool
    var username: string
    var usernameStatus: UsernameStatus
    var saving: bool
    var error: string

    /** The form opens on the existing profile's username, or empty for a new profile. */
    constructor (profile: Option<AgentProfile>)
      ensures isNew <==> profile.None?
      ensures username == (if profile.Some? then profile.value.username else "")
      ensures usernameStatus == Idle && !saving && error == ""
    {
      isNew := profile.None?;
      username := if profile.Some? then profile.value.username else "";
      usernameStatus := Idle;
      saving := false;
      error := "";
    }

    /** Typing into the username field stores the sanitised text. */
    method Input(raw: string)
      modifies this
      ensures username == Sanitize(raw)
      ensures usernameStatus == old(usernameStatus) && saving == old(saving) && error == old(error)
    {
      username := Sanitize(raw);
    }

    /**
     * `checkUsername(value)`: idle or invalid without asking; otherwise the
     * server's answer (`available` = `Some(b)`), or idle when the request
     * fails (`None`).
     */
    method CheckUsername(value: string, available: Option<bool>)
      modifies this
      ensures Classify(value) != Checking ==> usernameStatus == Classify(value)
      ensures Classify(value) == Checking ==>
        usernameStatus == (if available == Some(true) then Available else if available == Some(false) then Taken else Idle)
      ensures username == old(username) && saving == old(saving) && error == old(error)
    {
      var status := Classify(value);
      if status != Checking {
        usernameStatus := status;
        return;
      }
      usernameStatus := Checking;
      match available {
        case Some(free) =>
          usernameStatus := if free then Available else Taken;
        case None =>
          usernameStatus := Idle;
      }
    }

    /** A new profile is created with POST; an existing one is updated with PUT. */
    function SubmitMethod(): (m: string)
      reads this
      ensures m == "POST" <==> isNew
      ensures m == "PUT" <==> !isNew
    {
      if isNew then "POST" else "PUT"
    }

    /** The submit button is disabled while saving, and for a new profile until its username is known to be free. */
    predicate SubmitDisabled()
      reads this
    {
      saving || (isNew && usernameStatus != Available)
    }

    /** A new profile can be submitted only once the server has reported its username free. */
    lemma NewProfileNeedsAvailableName()
      requires isNew && !SubmitDisabled()
      ensures usernameStatus == Available && !saving
    {
    }

    /**
     * Submitting: the error is cleared and set again only when the save
     * fails, with the server's text or "Failed to save"; saving ends false.
     */
    method Submit(outcome: SaveOutcome)
      modifies this
      ensures !saving
      ensures outcome.Saved? ==> error == ""
      ensures outcome.Failed? ==> error == OrElse(outcome.error, "Failed to save") && error != ""
      ensures username == old(username) && usernameStatus == old(usernameStatus)
    {
      saving := true;
      error := "";
      if outcome.Failed? {
        error := OrElse(outcome.error, "Failed to save");
      }
      saving := false;
    }
  }
}
