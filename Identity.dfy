/** `extract_entry_email` (tools/cleanup_kdbx.py:90-97): the address an entry
    is judged by. Candidate custom fields are tried in the order of
    `EMAIL_FIELD_CANDIDATES` (tools/cleanup_kdbx.py:36); the username is the
    fallback. */
module Identity {
  import opened Wrappers
  import opened Store
  import opened Text

  const EmailFieldCandidates: seq<string> := ["email", "e-mail"]

  /** `entry.get_custom_property(key)`: the value the store gives for the
      custom field `key`, or `None`. */
  function CustomProperty(e: Entry, key: string): (r: Option<string>)
  {
    if key in e.custom then Some(e.custom[key]) else None
  }

  /** The normalised value of the custom field `key`. */
  function Candidate(e: Entry, key: string): Option<string> {
    NormalizeEmail(CustomProperty(e, key))
  }

  /** The loop over the candidate keys: the normalised value of the first key
      that yields one, or `None` when none does. */
  function FirstCandidate(e: Entry, keys: seq<string>): (r: Option<string>)
    ensures r.None? <==> forall k :: 0 <= k < |keys| ==> Candidate(e, keys[k]).None?
    ensures r.Some? ==> NormalizeEmail(r) == r
  {
    FirstFrom(e, keys, 0)
  }

  /** The loop from key `i` on. */
  function FirstFrom(e: Entry, keys: seq<string>, i: nat): (r: Option<string>)
    requires i <= |keys|
    ensures r.None? <==> forall k :: i <= k < |keys| ==> Candidate(e, keys[k]).None?
    ensures r.Some? ==> NormalizeEmail(r) == r
    decreases |keys| - i
  {
    if i == |keys| then None
    else
      var n := Candidate(e, keys[i]);
      if n.Some? then
        NormalizeIdempotent(CustomProperty(e, keys[i]));
        n
      else
        FirstFrom(e, keys, i + 1)
  }

  /** The value found is that of a key before which no key yields one. */
  lemma FirstCandidateIsFirst(e: Entry, keys: seq<string>) returns (k: nat)
    requires FirstCandidate(e, keys).Some?
    ensures k < |keys| && Candidate(e, keys[k]) == FirstCandidate(e, keys)
    ensures forall j :: 0 <= j < k ==> Candidate(e, keys[j]).None?
  {
    k := FirstFromIsFirst(e, keys, 0);
  }

  lemma {:induction false} FirstFromIsFirst(e: Entry, keys: seq<string>, i: nat) returns (k: nat)
    requires i <= |keys| && FirstFrom(e, keys, i).Some?
    ensures i <= k < |keys| && Candidate(e, keys[k]) == FirstFrom(e, keys, i)
    ensures forall j :: i <= j < k ==> Candidate(e, keys[j]).None?
    decreases |keys| - i
  {
    if Candidate(e, keys[i]).Some? {
      k := i;
    } else {
      k := FirstFromIsFirst(e, keys, i + 1);
    }
  }

  /** `extract_entry_email(entry)`. The result, when there is one, is already
      in normal form, so it can be compared with allow-list values directly. */
  function ExtractEntryEmail(e: Entry): (r: Option<string>)
    ensures r.Some? ==> NormalizeEmail(r) == r && r.value != ""
  {
    match FirstCandidate(e, EmailFieldCandidates)
    case Some(v) => Some(v)
    case None =>
      NormalizeIdempotent(e.username);
      NormalizeEmail(e.username)
  }

  /** The priority spelled out: the `email` field if it normalises to an
      address, else the `e-mail` field, and the username only when both
      fields yield nothing. */
  lemma ExtractEntryEmailPriority(e: Entry)
    ensures ExtractEntryEmail(e) ==
      if Candidate(e, "email").Some? then Candidate(e, "email")
      else if Candidate(e, "e-mail").Some? then Candidate(e, "e-mail")
      else NormalizeEmail(e.username)
  {
    FirstOfTwo(e, "email", "e-mail");
  }

  /** The loop over two keys. */
  lemma FirstOfTwo(e: Entry, a: string, b: string)
    ensures FirstCandidate(e, [a, b]) == if Candidate(e, a).Some? then Candidate(e, a) else Candidate(e, b)
  {
    var keys := [a, b];
    assert keys[0] == a && keys[1] == b;
    assert FirstFrom(e, keys, 2) == None;
    assert FirstFrom(e, keys, 1) == if Candidate(e, b).Some? then Candidate(e, b) else None;
    assert FirstFrom(e, keys, 0) == if Candidate(e, a).Some? then Candidate(e, a) else FirstFrom(e, keys, 1);
  }
}
