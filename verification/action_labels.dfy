/** The audit-log page's display names for log actions: a fixed table for
    the known actions, otherwise the action with the word "twilio" taken out. */
module ActionLabels {
  import opened PyStr

  /** The page's `action_map`. */
  const ActionMap: map<string, string> := map[
    "twilio_inbound_sms" := "Inbound SMS",
    "forward_message" := "Forwarded SMS",
    "login" := "Login",
    "update_number" := "Update Number",
    "create_user" := "Create User",
    "update_user" := "Update User"
  ]

  /** `\w`, restricted to ASCII: letters, digits and the underscore. */
  predicate IsWordChar(c: char) {
    ('a' <= c <= 'z') || ('A' <= c <= 'Z') || ('0' <= c <= '9') || c == '_'
  }

  /** A character matched by the lower-case pattern letter `p` under
      IGNORECASE: its ASCII lower case is `p`, and "i" also matches the
      dotted capital I and the dotless small i. */
  predicate FoldsTo(c: char, p: char) {
    LowerChar(c) == p || (p == 'i' && (c == '\U{130}' || c == '\U{131}'))
  }

  /** The characters each pattern letter matches, listed out. */
  lemma FoldsToCases(c: char)
    ensures FoldsTo(c, 't') <==> c == 't' || c == 'T'
    ensures FoldsTo(c, 'w') <==> c == 'w' || c == 'W'
    ensures FoldsTo(c, 'i') <==> c == 'i' || c == 'I' || c == '\U{130}' || c == '\U{131}'
    ensures FoldsTo(c, 'l') <==> c == 'l' || c == 'L'
    ensures FoldsTo(c, 'o') <==> c == 'o' || c == 'O'
  {
  }

  /** `w` is the word "twilio" in some mix of cases. */
  predicate TwilioWord(w: string) {
    && |w| == 6
    && FoldsTo(w[0], 't') && FoldsTo(w[1], 'w') && FoldsTo(w[2], 'i')
    && FoldsTo(w[3], 'l') && FoldsTo(w[4], 'i') && FoldsTo(w[5], 'o')
  }

  /** `\btwilio\b` matches at index `i` of `v`. */
  predicate TwilioAt(v: string, i: nat) {
    && i + 6 <= |v|
    && FoldsTo(v[i], 't') && FoldsTo(v[i + 1], 'w') && FoldsTo(v[i + 2], 'i')
    && FoldsTo(v[i + 3], 'l') && FoldsTo(v[i + 4], 'i') && FoldsTo(v[i + 5], 'o')
    && (i == 0 || !IsWordChar(v[i - 1]))
    && (i + 6 == |v| || !IsWordChar(v[i + 6]))
  }

  /** A match at `i` is six characters spelling "twilio" with no word
      character on either side. */
  lemma TwilioAtWholeWord(v: string, i: nat)
    ensures TwilioAt(v, i) <==>
              && i + 6 <= |v| && TwilioWord(v[i..i + 6])
              && (i == 0 || !IsWordChar(v[i - 1]))
              && (i + 6 == |v| || !IsWordChar(v[i + 6]))
  {
  }

  /** End of the greedy run `\s*` that starts at index `i`. */
  function SpaceRunEnd(v: string, i: nat): (e: nat)
    requires i <= |v|
    ensures i <= e <= |v|
    ensures e == |v| || !IsSpace(v[e])
    decreases |v| - i
  {
    if i == |v| || !IsSpace(v[i]) then i else SpaceRunEnd(v, i + 1)
  }

  /** `re.sub(r"\btwilio\b\s*", "", v, flags=re.IGNORECASE)` applied to
      `v[i..]`, with word boundaries judged on the whole of `v`. */
  function RemoveTwilio(v: string, i: nat): (r: string)
    requires i <= |v|
    ensures |r| <= |v| - i
    decreases |v| - i
  {
    if i == |v| then []
    else if TwilioAt(v, i) then RemoveTwilio(v, SpaceRunEnd(v, i + 6))
    else [v[i]] + RemoveTwilio(v, i + 1)
  }

  /** The labels are non-empty and carry no surrounding whitespace. */
  lemma LabelsTrimmed()
    ensures forall k :: k in ActionMap ==> ActionMap[k] != [] && Trimmed(ActionMap[k])
    ensures forall k :: k in ActionMap ==> k != [] && !IsSpace(k[0])
  {
    forall k | k in ActionMap
      ensures ActionMap[k] != [] && Trimmed(ActionMap[k]) && k != [] && !IsSpace(k[0])
    {
      WordCharEnds(ActionMap[k]);
      WordCharEnds(k);
    }
  }

  /** A text that begins and ends with an ASCII word character is trimmed. */
  lemma WordCharEnds(w: string)
    ensures w != [] && IsWordChar(w[0]) && IsWordChar(w[|w| - 1]) ==> Trimmed(w)
  {
  }

  /** `_friendly_action`: the stripped action looked up case-insensitively in
      the table, else the stripped action with every whole word "twilio" and
      the whitespace after it removed, else (when nothing is left) the
      stripped action itself. */
  function FriendlyAction(s: string): (r: string)
    ensures Trimmed(r)
    ensures r == [] <==> AllSpace(s)
    ensures AsciiLower(Strip(s)) in ActionMap ==> r == ActionMap[AsciiLower(Strip(s))]
    ensures AsciiLower(Strip(s)) !in ActionMap ==> |r| <= |Strip(s)|
  {
    var v := Strip(s);
    StripEmptyIffAllSpace(s);
    LabelsTrimmed();
    var key := AsciiLower(v);
    if key in ActionMap then ActionMap[key]
    else
      var t := Strip(RemoveTwilio(v, 0));
      if t == [] then v else t
  }

  /** Scanning from `i` copies `v[i..]` when no match starts there or later. */
  lemma {:induction false} NoMatchCopied(v: string, i: nat)
    requires i <= |v|
    requires forall j :: i <= j < |v| ==> !TwilioAt(v, j)
    ensures RemoveTwilio(v, i) == v[i..]
    decreases |v| - i
  {
    if i < |v| {
      NoMatchCopied(v, i + 1);
      assert v[i..] == [v[i]] + v[i + 1..];
    }
  }

  /** An action that is not in the table and has no whole word "twilio" is
      shown stripped and otherwise as it is. */
  lemma UnmappedWithoutTwilio(s: string)
    requires AsciiLower(Strip(s)) !in ActionMap
    requires forall j :: 0 <= j < |Strip(s)| ==> !TwilioAt(Strip(s), j)
    ensures FriendlyAction(s) == Strip(s)
  {
    var v := Strip(s);
    NoMatchCopied(v, 0);
    assert v[0..] == v;
    StripIdempotent(s);
  }

  /** Known actions are matched regardless of ASCII case and of surrounding
      whitespace. */
  lemma KnownActionLabelled(pre: string, v: string, post: string, k: string)
    requires k in ActionMap
    requires AllSpace(pre) && AllSpace(post)
    requires |v| == |k| && forall i :: 0 <= i < |v| ==> LowerChar(v[i]) == k[i]
    ensures FriendlyAction(pre + v + post) == ActionMap[k]
  {
    LabelsTrimmed();
    assert !IsSpace(k[0]) && LowerChar(v[0]) == k[0];
    KnownKeysTrimmed(v, k);
    StripPadded(pre, v, post);
    assert AsciiLower(v) == k;
  }

  /** A text equal to a known key up to ASCII case is trimmed like the key. */
  lemma KnownKeysTrimmed(v: string, k: string)
    requires k in ActionMap
    requires |v| == |k| && forall i :: 0 <= i < |v| ==> LowerChar(v[i]) == k[i]
    ensures v != [] && Trimmed(v)
  {
    var n := |k| - 1;
    assert k[0] in k && k[n] in k;
    KeyLettersNotSpace(k);
    assert LowerChar(v[0]) == k[0] && LowerChar(v[n]) == k[n];
  }

  /** Every character of a key is a lower-case letter or "_". */
  lemma KeyLettersNotSpace(k: string)
    requires k in ActionMap
    ensures forall i :: 0 <= i < |k| ==> ('a' <= k[i] <= 'z') || k[i] == '_'
  {
  }

  /** The run `\s*` starting at `|w|` of `w + sp + rest` covers exactly `sp`
      when `rest` does not start with whitespace. */
  lemma {:induction false} SpaceRunCovers(w: string, sp: string, rest: string)
    requires AllSpace(sp) && (rest == [] || !IsSpace(rest[0]))
    ensures SpaceRunEnd(w + sp + rest, |w|) == |w| + |sp|
    decreases |sp|
  {
    var v := w + sp + rest;
    if sp == [] {
      assert rest != [] ==> v[|w|] == rest[0];
    } else {
      assert v[|w|] == sp[0];
      assert v == (w + [sp[0]]) + sp[1..] + rest;
      SpaceRunCovers(w + [sp[0]], sp[1..], rest);
    }
  }

  /** A leading word "twilio" (in any case) and the whitespace after it are
      dropped, and the scan goes on over the rest. */
  lemma LeadingTwilioDropped(w: string, sp: string, rest: string)
    requires TwilioWord(w)
    requires AllSpace(sp) && (rest == [] || !IsSpace(rest[0]))
    requires sp != [] || rest == [] || !IsWordChar(rest[0])
    ensures RemoveTwilio(w + sp + rest, 0) == RemoveTwilio(w + sp + rest, 6 + |sp|)
  {
    var v := w + sp + rest;
    assert v[..6] == w;
    assert sp != [] ==> v[6] == sp[0];
    assert sp == [] && rest != [] ==> v[6] == rest[0];
    assert TwilioAt(v, 0);
    SpaceRunCovers(w, sp, rest);
  }

  /** No key of the table has six characters. */
  lemma NoSixLetterKey()
    ensures forall k :: k in ActionMap ==> |k| != 6
  {
  }

  /** An action that is, after stripping, just the word "twilio" in some case
      is shown as it is: removing the word would leave nothing. */
  lemma BareTwilioKept(s: string)
    requires TwilioWord(Strip(s))
    ensures FriendlyAction(s) == Strip(s)
  {
    var v := Strip(s);
    LeadingTwilioDropped(v, [], []);
    assert v + [] + [] == v;
    NoSixLetterKey();
    assert AsciiLower(v) !in ActionMap;
    assert RemoveTwilio(v, 0) == [];
    StripEmptyIffAllSpace([]);
  }

  /** An action that starts with the word "twilio" followed by whitespace has
      both removed, the rest being kept when it has no further match. */
  lemma TwilioPrefixRemoved(w: string, sp: string, rest: string)
    requires TwilioWord(w)
    requires AllSpace(sp) && sp != [] && (rest == [] || !IsSpace(rest[0]))
    requires forall j :: 6 + |sp| <= j < 6 + |sp| + |rest| ==> !TwilioAt(w + sp + rest, j)
    ensures RemoveTwilio(w + sp + rest, 0) == rest
  {
    var v := w + sp + rest;
    LeadingTwilioDropped(w, sp, rest);
    NoMatchCopied(v, 6 + |sp|);
    assert v[6 + |sp|..] == rest;
  }

  /** Scanning from `i` copies `v[i..k]` when no match starts before `k`. */
  lemma {:induction false} CopiedUpTo(v: string, i: nat, k: nat)
    requires i <= k <= |v|
    requires forall j :: i <= j < k ==> !TwilioAt(v, j)
    ensures RemoveTwilio(v, i) == v[i..k] + RemoveTwilio(v, k)
    decreases k - i
  {
    if i < k {
      var tail := RemoveTwilio(v, k);
      assert RemoveTwilio(v, i + 1) == v[i + 1..k] + tail by {
        CopiedUpTo(v, i + 1, k);
      }
      assert RemoveTwilio(v, i) == [v[i]] + RemoveTwilio(v, i + 1) by {
        assert !TwilioAt(v, i);
      }
      assert v[i..k] == [v[i]] + v[i + 1..k];
    }
  }

  /** A whole word "twilio" after other text is removed together with the
      whitespace after it; the text before it and the rest after it are
      kept when they hold no other match. */
  lemma InnerTwilioRemoved(p: string, w: string, sp: string, rest: string)
    requires |w| == 6 && TwilioAt(p + w + sp + rest, |p|)
    requires AllSpace(sp) && (rest == [] || !IsSpace(rest[0]))
    requires forall j :: 0 <= j < |p| ==> !TwilioAt(p + w + sp + rest, j)
    requires forall j :: |p| + 6 + |sp| <= j < |p| + 6 + |sp| + |rest| ==> !TwilioAt(p + w + sp + rest, j)
    ensures RemoveTwilio(p + w + sp + rest, 0) == p + rest
  {
    var v := p + w + sp + rest;
    ConcatSlices(p + w, sp, rest);
    assert v[0..|p|] == (p + w)[..|p|];
    SpaceRunCovers(p + w, sp, rest);
    OneMatchRemoved(p + w + sp + rest, |p|, |p| + 6 + |sp|);
  }

  /** With a single match at `i`, whose whitespace run ends at `e`, the
      substitution keeps `v[..i]` and `v[e..]`. */
  lemma OneMatchRemoved(v: string, i: nat, e: nat)
    requires TwilioAt(v, i) && e == SpaceRunEnd(v, i + 6)
    requires forall j :: 0 <= j < i ==> !TwilioAt(v, j)
    requires forall j :: e <= j < |v| ==> !TwilioAt(v, j)
    ensures RemoveTwilio(v, 0) == v[0..i] + v[e..]
  {
    CopiedUpTo(v, 0, i);
    MatchDropped(v, i);
    NoMatchCopied(v, e);
  }

  /** A match at `i` is removed with the whitespace run after it. */
  lemma MatchDropped(v: string, i: nat)
    requires TwilioAt(v, i)
    ensures RemoveTwilio(v, i) == RemoveTwilio(v, SpaceRunEnd(v, i + 6))
  {
  }

  /** The outer slices of a four-part concatenation. */
  /** The display name of an unknown action with one whole word "twilio"
      after other text: the action with that word and the whitespace after
      it removed, then stripped, or the action itself if nothing is left. */
  lemma InnerTwilioShown(s: string, p: string, w: string, sp: string, rest: string)
    requires Strip(s) == p + w + sp + rest && AsciiLower(Strip(s)) !in ActionMap
    requires |w| == 6 && TwilioAt(p + w + sp + rest, |p|)
    requires AllSpace(sp) && (rest == [] || !IsSpace(rest[0]))
    requires forall j :: 0 <= j < |p| ==> !TwilioAt(p + w + sp + rest, j)
    requires forall j :: |p| + 6 + |sp| <= j < |p| + 6 + |sp| + |rest| ==> !TwilioAt(p + w + sp + rest, j)
    ensures FriendlyAction(s) == if Strip(p + rest) == [] then Strip(s) else Strip(p + rest)
  {
    InnerTwilioRemoved(p, w, sp, rest);
  }

  /** Example: a trailing provider name is dropped. */
  lemma TrailingTwilioExample()
    ensures FriendlyAction("via Twilio") == "via"
  {
    var s := "via Twilio";
    ViaTrimmed();
    ViaMatches();
    InnerTwilioShown(s, "via ", "Twilio", [], []);
    ViaStripped();
  }

  /** "via Twilio" is already trimmed and is not a key. */
  lemma ViaTrimmed()
    ensures Strip("via Twilio") == "via " + "Twilio" + [] + []
    ensures AsciiLower(Strip("via Twilio")) !in ActionMap
  {
    var s := "via Twilio";
    assert "via " + "Twilio" + [] + [] == s;
    assert !IsSpace(s[0]) && !IsSpace(s[9]);
    StripTrimmed(s);
    assert |AsciiLower(s)| == 10;
  }

  /** In "via Twilio" the only match starts at index 4. */
  lemma ViaMatches()
    ensures TwilioAt("via " + "Twilio" + [] + [], 4)
    ensures forall j :: 0 <= j < 4 ==> !TwilioAt("via " + "Twilio" + [] + [], j)
  {
    var s := "via Twilio";
    assert "via " + "Twilio" + [] + [] == s;
    assert !FoldsTo(s[0], 't') && !FoldsTo(s[1], 't') && !FoldsTo(s[2], 't') && !FoldsTo(s[3], 't');
  }

  /** "via " stripped and with nothing added is "via". */
  lemma ViaStripped()
    ensures Strip("via " + []) == "via"
  {
    var t := "via";
    assert !IsSpace(t[0]) && !IsSpace(t[2]) && IsSpace(' ');
    StripPadded([], t, " ");
    assert [] + t + " " == "via " + [];
  }

  /** Example: a known action in capitals gets its label. */
  lemma CapitalsExample()
    ensures FriendlyAction("LOGIN") == "Login"
  {
    var k := "login";
    assert k in ActionMap;
    var v := "LOGIN";
    assert forall i :: 0 <= i < |v| ==> LowerChar(v[i]) == k[i];
    KnownActionLabelled([], v, [], k);
    assert [] + v + [] == v;
  }

  /** Example: the bare word is shown as it is. */
  lemma BareTwilioExample()
    ensures FriendlyAction("Twilio") == "Twilio"
  {
    var v := "Twilio";
    assert !IsSpace(v[0]) && !IsSpace(v[5]);
    StripTrimmed(v);
    BareTwilioKept(v);
  }
}
