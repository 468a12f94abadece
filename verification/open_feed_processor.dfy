/** The configuration scan of `OpenFeedProcessor.processURLs`: the loaded
    properties are a finite map from key to value; feeds are the numbered
    entries `url1`, `url2`, ... read until the first missing `url<n>`, and
    every entry that passes validation is submitted for polling, in order. */
module OpenFeedProcessor {
  import opened Wrappers
  import opened JavaInt
  import UnixPath

  type Properties = map<string, string>

  /** `OpenFeedProcessor.timeout`, in seconds. */
  const Timeout: int32 := 30
  /** `DEFAULT_POLL_INTERVAL`, in seconds. */
  const DefaultPollInterval: int32 := 3600
  /** The user name the first-run template leaves in place. */
  const PlaceholderUsername: string := "username"

  const UrlField: string := "url"
  const PollIntervalField: string := "pollInterval"
  const UsernameField: string := "username"
  const PasswordField: string := "password"
  const OutfileField: string := "outfile"

  /** The field names of a numbered entry. */
  const Fields: set<string> := {UrlField, PollIntervalField, UsernameField, PasswordField, OutfileField}

  /** One feed's parameters (the `AuthInfo` record). */
  datatype AuthInfo = AuthInfo(url: string, username: string, password: string, pollInterval: int32, outputFile: string)

  /** A validation check that failed; every failing check is logged. */
  datatype Rejection = EmptyUrl | PlaceholderUser | EmptyUsername | EmptyPassword | NoOutfile

  /** An exception thrown while an entry is read, which the scan catches. */
  datatype Fault =
    | BadPollInterval   // NumberFormatException from Integer.valueOf
    | NullUsername      // NullPointerException: username<n> absent
    | NullPassword      // NullPointerException: password<n> absent
    | BadOutfilePath    // InvalidPathException from Paths.get

  datatype EntryOutcome = Admitted(info: AuthInfo) | Rejected(reasons: set<Rejection>) | Failed(fault: Fault)

  /** A feed handed to the thread pool, with the index of its entry. */
  datatype Submission = Submission(index: nat, info: AuthInfo)

  /** The property key of field `field` of entry `n`, e.g. "url3". */
  function Key(field: string, n: nat): string {
    field + NatToString(n)
  }

  /** The poll interval of entry `n`: the default when the key is absent,
      otherwise `Integer.valueOf` of its value (`None`: it throws). */
  function PollIntervalOf(props: Properties, n: nat): Option<int32> {
    if Key(PollIntervalField, n) !in props then Some(DefaultPollInterval)
    else ParseInt(props[Key(PollIntervalField, n)])
  }

  function Checks(url: string, username: string, password: string, hasOutfile: bool): set<Rejection> {
    (if url == "" then {EmptyUrl} else {})
    + (if username == PlaceholderUsername then {PlaceholderUser} else {})
    + (if username == "" then {EmptyUsername} else {})
    + (if password == "" then {EmptyPassword} else {})
    + (if hasOutfile then {} else {NoOutfile})
  }

  /** One pass of the scan loop's body, for an entry whose `url<n>` is
      present. Reading entry `n` throws exactly when its poll interval is present but
      not a Java int, its user name or password is absent, or its output file
      names an invalid path; it is admitted exactly when nothing throws, the
      url, user name and password are non-empty, the user name is not the
      placeholder and an output file is given; an admitted entry carries its
      own values verbatim (the output file normalised as a path); a rejected
      one names every check that failed, and only those. */
  function Examine(props: Properties, n: nat): (o: EntryOutcome)
    requires Key(UrlField, n) in props
    ensures
      var url, pi, user, pass, out :=
        Key(UrlField, n), Key(PollIntervalField, n), Key(UsernameField, n), Key(PasswordField, n), Key(OutfileField, n);
      && (o.Failed? <==>
            || (pi in props && ParseInt(props[pi]).None?)
            || user !in props || pass !in props
            || (out in props && '\0' in props[out]))
      && (o.Admitted? <==>
            && props[url] != ""
            && (pi in props ==> ParseInt(props[pi]).Some?)
            && user in props && props[user] != PlaceholderUsername && props[user] != ""
            && pass in props && props[pass] != ""
            && out in props && '\0' !in props[out])
      && (o.Admitted? ==>
            && o.info.url == props[url]
            && o.info.username == props[user]
            && o.info.password == props[pass]
            && o.info.pollInterval == (if pi in props then ParseInt(props[pi]).value else DefaultPollInterval)
            && o.info.outputFile == UnixPath.Normalize(props[out]))
      && (o.Rejected? ==>
            && user in props && pass in props && o.reasons != {}
            && (EmptyUrl in o.reasons <==> props[url] == "")
            && (PlaceholderUser in o.reasons <==> props[user] == PlaceholderUsername)
            && (EmptyUsername in o.reasons <==> props[user] == "")
            && (EmptyPassword in o.reasons <==> props[pass] == "")
            && (NoOutfile in o.reasons <==> out !in props))
  {
    var url := props[Key(UrlField, n)];
    match PollIntervalOf(props, n)
    case None => Failed(BadPollInterval)
    case Some(interval) =>
      if Key(UsernameField, n) !in props then Failed(NullUsername)
      else if Key(PasswordField, n) !in props then Failed(NullPassword)
      else
        var username, password := props[Key(UsernameField, n)], props[Key(PasswordField, n)];
        var outfile := if Key(OutfileField, n) in props then Some(UnixPath.GetPath(props[Key(OutfileField, n)])) else None;
        if outfile == Some(None) then Failed(BadOutfilePath)
        else
          var reasons := Checks(url, username, password, outfile.Some?);
          if reasons == {} then Admitted(AuthInfo(url, username, password, interval, outfile.value.value))
          else Rejected(reasons)
  }

  lemma KeyStart(f: string, n: nat)
    ensures |f| >= 2 ==> Key(f, n)[..2] == f[..2]
  {
  }

  /** No two field names share their first two characters. */
  lemma FieldsStartApart()
    ensures forall f, g :: f in Fields && g in Fields && f != g ==> |f| >= 2 && |g| >= 2 && f[..2] != g[..2]
  {
    assert UrlField[..2] == "ur" && PollIntervalField[..2] == "po" && UsernameField[..2] == "us";
    assert PasswordField[..2] == "pa" && OutfileField[..2] == "ou";
  }

  /** Keys of distinct fields or distinct indices are distinct strings. */
  lemma KeyInjective(f: string, g: string, a: nat, b: nat)
    requires f in Fields && g in Fields
    requires Key(f, a) == Key(g, b)
    ensures f == g && a == b
  {
    if f != g {
      KeyStart(f, a);
      KeyStart(g, b);
      FieldsStartApart();
      assert false;
    } else {
      assert Key(f, a)[|f|..] == NatToString(a);
      assert Key(g, b)[|g|..] == NatToString(b);
      NatToStringInjective(a, b);
    }
  }

  /** The url keys of the indices below `n`. */
  function UrlKeysBelow(n: nat): set<string> {
    set i | 1 <= i < n :: Key(UrlField, i)
  }

  lemma {:induction false} UrlKeysBelowCount(n: nat)
    requires n >= 1
    ensures |UrlKeysBelow(n)| == n - 1
  {
    if n > 1 {
      UrlKeysBelowCount(n - 1);
      assert UrlKeysBelow(n) == UrlKeysBelow(n - 1) + {Key(UrlField, n - 1)};
      if Key(UrlField, n - 1) in UrlKeysBelow(n - 1) {
        var i :| 1 <= i < n - 1 && Key(UrlField, i) == Key(UrlField, n - 1);
        KeyInjective(UrlField, UrlField, i, n - 1);
      }
    } else {
      assert UrlKeysBelow(n) == {};
    }
  }

  /** If every url key below `n` is present, the map has at least `n - 1` keys. */
  lemma UrlKeysBound(props: Properties, n: nat)
    requires n >= 1
    requires forall i :: 1 <= i < n ==> Key(UrlField, i) in props
    ensures n <= |props| + 1
  {
    var s := UrlKeysBelow(n);
    UrlKeysBelowCount(n);
    assert s <= props.Keys;
    assert props.Keys * s == s;
    assert |props.Keys - s| + |props.Keys * s| == |props.Keys|;
  }

  /** The scan from index `n` on: the outcome of every index up to the first
      one whose `url<n>` is absent, and nothing beyond it. */
  function ScanFrom(props: Properties, n: nat): (r: seq<EntryOutcome>)
    requires n >= 1
    requires forall i :: 1 <= i < n ==> Key(UrlField, i) in props
    ensures Key(UrlField, n + |r|) !in props
    ensures forall k :: n <= k < n + |r| ==> Key(UrlField, k) in props
    ensures forall i :: 0 <= i < |r| ==> r[i] == Examine(props, n + i)
    decreases |props| + 1 - n
  {
    UrlKeysBound(props, n);
    if Key(UrlField, n) !in props then []
    else
      var rest := ScanFrom(props, n + 1);
      ScanFromCons(props, n, rest);
      [Examine(props, n)] + rest
  }

  lemma ScanFromCons(props: Properties, n: nat, rest: seq<EntryOutcome>)
    requires forall k :: n <= k < n + 1 + |rest| ==> Key(UrlField, k) in props
    requires forall j :: 0 <= j < |rest| ==> rest[j] == Examine(props, n + 1 + j)
    ensures var r := [Examine(props, n)] + rest;
      forall i :: 0 <= i < |r| ==> r[i] == Examine(props, n + i)
  {
    forall i | 0 <= i < 1 + |rest|
      ensures ([Examine(props, n)] + rest)[i] == Examine(props, n + i)
    {
      ScanFromConsAt(props, n, rest, i);
    }
  }

  lemma ScanFromConsAt(props: Properties, n: nat, rest: seq<EntryOutcome>, i: nat)
    requires forall k :: n <= k < n + 1 + |rest| ==> Key(UrlField, k) in props
    requires forall j :: 0 <= j < |rest| ==> rest[j] == Examine(props, n + 1 + j)
    requires i < 1 + |rest|
    ensures ([Examine(props, n)] + rest)[i] == Examine(props, n + i)
  {
    if i > 0 {
      var j := i - 1;
      assert ([Examine(props, n)] + rest)[i] == rest[j];
      assert n + 1 + j == n + i;
    }
  }

  /** The outcomes of entries 1, 2, ...: `Scan(props)[i]` is entry `i + 1`,
      and entry `|Scan(props)| + 1` is the first whose url key is absent. */
  function Scan(props: Properties): (r: seq<EntryOutcome>)
    ensures Key(UrlField, |r| + 1) !in props
    ensures forall n :: 1 <= n <= |r| ==> Key(UrlField, n) in props && r[n - 1] == Examine(props, n)
  {
    var r := ScanFrom(props, 1);
    forall n | 1 <= n <= |r|
      ensures r[n - 1] == Examine(props, n)
    {
      var i := n - 1;
      assert r[i] == Examine(props, 1 + i);
    }
    r
  }

  lemma ScanAt(props: Properties, n: nat)
    requires 1 <= n <= |Scan(props)|
    ensures Key(UrlField, n) in props && Scan(props)[n - 1] == Examine(props, n)
  {
  }

  /** The index of the first entry whose url key is absent: where the scan stops. */
  function Gap(props: Properties): (g: nat)
    ensures g >= 1 && Key(UrlField, g) !in props
    ensures forall n :: 1 <= n < g ==> Key(UrlField, n) in props
  {
    |Scan(props)| + 1
  }

  /** The submissions made for `outs`, where `outs[k]` is the outcome of
      entry `first + k`. */
  function Submitted(outs: seq<EntryOutcome>, first: nat): seq<Submission>
    decreases |outs|
  {
    if |outs| == 0 then []
    else if outs[0].Admitted? then [Submission(first, outs[0].info)] + Submitted(outs[1..], first + 1)
    else Submitted(outs[1..], first + 1)
  }

  /** Every submission is the descriptor of an admitted entry the outcomes cover. */
  lemma {:induction false} SubmittedSound(outs: seq<EntryOutcome>, first: nat)
    ensures forall s :: s in Submitted(outs, first) ==>
      first <= s.index < first + |outs| && outs[s.index - first] == Admitted(s.info)
    decreases |outs|
  {
    if |outs| > 0 {
      SubmittedSound(outs[1..], first + 1);
      var rest := Submitted(outs[1..], first + 1);
      forall s | s in Submitted(outs, first)
        ensures first <= s.index < first + |outs| && outs[s.index - first] == Admitted(s.info)
      {
        if s in rest {
          assert outs[1..][s.index - (first + 1)] == Admitted(s.info);
        }
      }
    }
  }

  lemma SubmittedSoundAt(outs: seq<EntryOutcome>, first: nat, s: Submission)
    requires s in Submitted(outs, first)
    ensures first <= s.index < first + |outs| && outs[s.index - first] == Admitted(s.info)
  {
    SubmittedSound(outs, first);
  }

  /** Submissions are made in strictly increasing index order. */
  lemma {:induction false} SubmittedOrdered(outs: seq<EntryOutcome>, first: nat)
    ensures forall i, j :: 0 <= i < j < |Submitted(outs, first)| ==>
      Submitted(outs, first)[i].index < Submitted(outs, first)[j].index
    decreases |outs|
  {
    if |outs| > 0 {
      SubmittedOrdered(outs[1..], first + 1);
      SubmittedSound(outs[1..], first + 1);
      var rest := Submitted(outs[1..], first + 1);
      if outs[0].Admitted? {
        var r := Submitted(outs, first);
        forall i, j | 0 <= i < j < |r|
          ensures r[i].index < r[j].index
        {
          assert r[j] == rest[j - 1];
          assert rest[j - 1] in rest;
          if i > 0 {
            assert r[i] == rest[i - 1];
          }
        }
      }
    }
  }

  /** Every admitted entry is submitted. */
  lemma {:induction false} SubmittedComplete(outs: seq<EntryOutcome>, first: nat)
    ensures forall k :: 0 <= k < |outs| && outs[k].Admitted? ==>
      Submission(first + k, outs[k].info) in Submitted(outs, first)
    decreases |outs|
  {
    if |outs| > 0 {
      SubmittedComplete(outs[1..], first + 1);
      var rest := Submitted(outs[1..], first + 1);
      forall k | 0 <= k < |outs| && outs[k].Admitted?
        ensures Submission(first + k, outs[k].info) in Submitted(outs, first)
      {
        if k > 0 {
          assert outs[k] == outs[1..][k - 1];
          assert Submission(first + 1 + (k - 1), outs[1..][k - 1].info) in rest;
        }
      }
    }
  }

  lemma SubmittedCompleteAt(outs: seq<EntryOutcome>, first: nat, k: nat)
    requires k < |outs| && outs[k].Admitted?
    ensures Submission(first + k, outs[k].info) in Submitted(outs, first)
  {
    SubmittedComplete(outs, first);
  }

  /** `processURLs`: the feeds handed to the pool, in submission order. */
  function ProcessUrls(props: Properties): seq<Submission> {
    Submitted(Scan(props), 1)
  }

  /** Every entry before the gap that passes validation is submitted exactly
      once, in increasing index order, with the descriptor built from its own
      keys; nothing else is submitted. */
  lemma ProcessUrlsSubmitsAdmitted(props: Properties)
    ensures var r := ProcessUrls(props);
      && (forall i, j :: 0 <= i < j < |r| ==> r[i].index < r[j].index)
      && (forall i :: 0 <= i < |r| ==>
            1 <= r[i].index < Gap(props) && Examine(props, r[i].index) == Admitted(r[i].info))
      && (forall n :: 1 <= n < Gap(props) && Examine(props, n).Admitted? ==>
            Submission(n, Examine(props, n).info) in r)
  {
    var r := ProcessUrls(props);
    SubmittedOrdered(Scan(props), 1);
    forall i | 0 <= i < |r|
      ensures 1 <= r[i].index < Gap(props) && Examine(props, r[i].index) == Admitted(r[i].info)
    {
      SubmissionSound(props, r[i]);
    }
    forall n | 1 <= n < Gap(props) && Examine(props, n).Admitted?
      ensures Submission(n, Examine(props, n).info) in r
    {
      AdmittedSubmitted(props, n);
    }
  }

  lemma SubmissionSound(props: Properties, s: Submission)
    requires s in ProcessUrls(props)
    ensures 1 <= s.index < Gap(props) && Examine(props, s.index) == Admitted(s.info)
  {
    var outs := Scan(props);
    var k := s.index;
    SubmittedSoundAt(outs, 1, s);
    assert outs[k - 1] == Admitted(s.info);
    ScanAt(props, k);
    assert outs[k - 1] == Examine(props, k);
  }

  lemma AdmittedSubmitted(props: Properties, n: nat)
    requires 1 <= n < Gap(props) && Examine(props, n).Admitted?
    ensures Submission(n, Examine(props, n).info) in ProcessUrls(props)
  {
    var outs := Scan(props);
    ScanAt(props, n);
    assert outs[n - 1] == Examine(props, n);
    SubmittedCompleteAt(outs, 1, n - 1);
  }

  /** The submissions other than the one for entry `n`. */
  function Without(subs: seq<Submission>, n: nat): seq<Submission> {
    if |subs| == 0 then []
    else (if subs[0].index == n then [] else [subs[0]]) + Without(subs[1..], n)
  }

  /** `Without` keeps every submission for another entry, and only those. */
  lemma {:induction false} WithoutMembers(subs: seq<Submission>, n: nat)
    ensures forall s :: s in Without(subs, n) <==> s in subs && s.index != n
  {
    if |subs| > 0 {
      WithoutMembers(subs[1..], n);
      assert subs == [subs[0]] + subs[1..];
    }
  }

  // ----- Properties of the scan -----

  /** The properties file `createPropertiesFile` writes on the first run. */
  const Template: Properties := map[
    "url1" := "{see comments above}",
    "username1" := "username",
    "password1" := "password",
    "outfile1" := "outfile1"]

  /** The first-run template is read as one entry that is rejected for its
      placeholder user name alone, so no feed is ever submitted from it. */
  lemma TemplateNeverAdmitted()
    ensures Scan(Template) == [Rejected({PlaceholderUser})]
    ensures ProcessUrls(Template) == []
  {
    TemplateEntry();
    TemplateKeys();
    var outs := Scan(Template);
    assert |outs| == 1;
    assert outs[0] == Examine(Template, 1);
  }

  /** Entry 1 of the template is rejected for its placeholder user name alone. */
  lemma TemplateEntry()
    ensures Key(UrlField, 1) in Template
    ensures Examine(Template, 1) == Rejected({PlaceholderUser})
  {
    TemplateKeys();
    NormalizeOutfile1();
    assert Checks("{see comments above}", "username", "password", true) == {PlaceholderUser};
  }

  /** Which keys of entries 1 and 2 the template holds, and their values. */
  lemma TemplateKeys()
    ensures Key(UrlField, 1) in Template && Template[Key(UrlField, 1)] == "{see comments above}"
    ensures Key(UsernameField, 1) in Template && Template[Key(UsernameField, 1)] == "username"
    ensures Key(PasswordField, 1) in Template && Template[Key(PasswordField, 1)] == "password"
    ensures Key(OutfileField, 1) in Template && Template[Key(OutfileField, 1)] == "outfile1"
    ensures Key(PollIntervalField, 1) !in Template
    ensures Key(UrlField, 2) !in Template
  {
    assert NatToString(1) == "1" && NatToString(2) == "2";
    assert Key(UrlField, 1) == "url1" && Key(UsernameField, 1) == "username1";
    assert Key(PasswordField, 1) == "password1" && Key(OutfileField, 1) == "outfile1";
    assert Key(PollIntervalField, 1) == "pollInterval1" && Key(UrlField, 2) == "url2";
  }

  lemma NormalizeOutfile1()
    ensures UnixPath.GetPath("outfile1") == Some("outfile1")
  {
    var s := "outfile1";
    assert forall i :: 0 <= i < |s| ==> s[i] != '/' && s[i] != '\0';
    UnixPath.NormalizeSlashFree(s);
  }

  /** Updating one field of one entry leaves every other field of every entry as it was. */
  lemma OtherKeysUnchanged(props: Properties, f: string, n: nat, v: string, g: string, j: nat)
    requires f in Fields && g in Fields && (f != g || n != j)
    ensures Key(g, j) in props[Key(f, n) := v] <==> Key(g, j) in props
    ensures Key(g, j) in props ==> props[Key(f, n) := v][Key(g, j)] == props[Key(g, j)]
  {
    if Key(g, j) == Key(f, n) {
      KeyInjective(g, f, j, n);
    }
  }

  /** Entry `j` reads only its own keys. */
  lemma ExamineFrame(props: Properties, f: string, n: nat, v: string, j: nat)
    requires f in Fields && n != j && Key(UrlField, j) in props
    ensures Key(UrlField, j) in props[Key(f, n) := v]
    ensures Examine(props[Key(f, n) := v], j) == Examine(props, j)
  {
    OtherKeysUnchanged(props, f, n, v, UrlField, j);
    OtherKeysUnchanged(props, f, n, v, PollIntervalField, j);
    OtherKeysUnchanged(props, f, n, v, UsernameField, j);
    OtherKeysUnchanged(props, f, n, v, PasswordField, j);
    OtherKeysUnchanged(props, f, n, v, OutfileField, j);
  }

  /** Two maps that agree on which url keys up to the gap of the first are
      present stop the scan at the same index. */
  lemma GapAgrees(props: Properties, props2: Properties)
    requires forall k :: 1 <= k <= Gap(props) ==> (Key(UrlField, k) in props <==> Key(UrlField, k) in props2)
    ensures Gap(props2) == Gap(props)
  {
  }

  /** Whatever is stored under the keys of an index past the gap (or under a
      non-url key of the gap index itself) never influences the scan. */
  lemma HigherIndicesIgnored(props: Properties, f: string, n: nat, v: string)
    requires f in Fields
    requires n > Gap(props) || (n == Gap(props) && f != UrlField)
    ensures Scan(props[Key(f, n) := v]) == Scan(props)
    ensures ProcessUrls(props[Key(f, n) := v]) == ProcessUrls(props)
  {
    var props2 := props[Key(f, n) := v];
    forall k | 1 <= k <= Gap(props)
      ensures Key(UrlField, k) in props <==> Key(UrlField, k) in props2
    {
      OtherKeysUnchanged(props, f, n, v, UrlField, k);
    }
    GapAgrees(props, props2);
    var outs, outs2 := Scan(props), Scan(props2);
    forall i | 0 <= i < |outs|
      ensures outs2[i] == outs[i]
    {
      ExamineFrame(props, f, n, v, i + 1);
    }
    assert outs2 == outs;
  }

  /** `k` is absent from both maps, or present in both with the same value. */
  predicate SameAt(props: Properties, props2: Properties, k: string) {
    (k in props <==> k in props2) && (k in props ==> props2[k] == props[k])
  }

  /** `props2` differs from `props` at most in the non-url fields of entry `n`. */
  ghost predicate SameOutside(props: Properties, props2: Properties, n: nat) {
    forall g, j :: g in Fields && (j != n || g == UrlField) ==> SameAt(props, props2, Key(g, j))
  }

  /** Setting a non-url field of entry `n` touches no other field key. */
  lemma UpdateSameOutside(props: Properties, f: string, n: nat, v: string)
    requires f in Fields && f != UrlField
    ensures SameOutside(props, props[Key(f, n) := v], n)
  {
    forall g, j | g in Fields && (j != n || g == UrlField)
      ensures SameAt(props, props[Key(f, n) := v], Key(g, j))
    {
      OtherKeysUnchanged(props, f, n, v, g, j);
    }
  }

  /** Deleting a non-url field of entry `n` touches no other field key. */
  lemma RemovalSameOutside(props: Properties, f: string, n: nat)
    requires f in Fields && f != UrlField
    ensures SameOutside(props, props - {Key(f, n)}, n)
  {
    forall g, j | g in Fields && (j != n || g == UrlField)
      ensures SameAt(props, props - {Key(f, n)}, Key(g, j))
    {
      if Key(g, j) == Key(f, n) {
        KeyInjective(g, f, j, n);
      }
    }
  }

  /** An entry other than `n` reads the same five values in both maps. */
  lemma ExamineSameOutside(props: Properties, props2: Properties, n: nat, j: nat)
    requires SameOutside(props, props2, n) && j != n && Key(UrlField, j) in props
    ensures Key(UrlField, j) in props2
    ensures Examine(props2, j) == Examine(props, j)
  {
    assert SameAt(props, props2, Key(UrlField, j));
    assert SameAt(props, props2, Key(PollIntervalField, j));
    assert SameAt(props, props2, Key(UsernameField, j));
    assert SameAt(props, props2, Key(PasswordField, j));
    assert SameAt(props, props2, Key(OutfileField, j));
  }

  /** Changing only non-url fields of an entry before the gap changes the
      scan at that entry only, and the scan stops at the same gap. */
  lemma ScanSameOutside(props: Properties, props2: Properties, n: nat)
    requires SameOutside(props, props2, n) && 1 <= n < Gap(props)
    ensures Gap(props2) == Gap(props)
    ensures Key(UrlField, n) in props2
    ensures Scan(props2) == Scan(props)[n - 1 := Examine(props2, n)]
  {
    forall k | 1 <= k <= Gap(props)
      ensures Key(UrlField, k) in props <==> Key(UrlField, k) in props2
    {
      assert SameAt(props, props2, Key(UrlField, k));
    }
    GapAgrees(props, props2);
    assert SameAt(props, props2, Key(UrlField, n));
    var outs, outs2 := Scan(props), Scan(props2);
    var expected := outs[n - 1 := Examine(props2, n)];
    forall i | 0 <= i < |outs|
      ensures outs2[i] == expected[i]
    {
      ScanEntrySameOutside(props, props2, n, i + 1);
    }
    assert |outs2| == |expected|;
  }

  lemma ScanEntrySameOutside(props: Properties, props2: Properties, n: nat, m: nat)
    requires SameOutside(props, props2, n)
    requires 1 <= n < Gap(props) && 1 <= m < Gap(props)
    requires Gap(props2) == Gap(props) && Key(UrlField, n) in props2
    ensures Scan(props2)[m - 1] == Scan(props)[n - 1 := Examine(props2, n)][m - 1]
  {
    assert Scan(props2)[m - 1] == Examine(props2, m);
    if m != n {
      assert Scan(props)[m - 1] == Examine(props, m);
      ExamineSameOutside(props, props2, n, m);
    }
  }

  /** Changing a non-url key of an entry before the gap changes the scan at
      that entry only. */
  lemma ScanAfterUpdate(props: Properties, f: string, n: nat, v: string)
    requires f in Fields && f != UrlField
    requires 1 <= n < Gap(props)
    ensures Gap(props[Key(f, n) := v]) == Gap(props)
    ensures Key(UrlField, n) in props[Key(f, n) := v]
    ensures Scan(props[Key(f, n) := v]) == Scan(props)[n - 1 := Examine(props[Key(f, n) := v], n)]
  {
    UpdateSameOutside(props, f, n, v);
    ScanSameOutside(props, props[Key(f, n) := v], n);
  }

  /** An entry that is skipped — whether rejected or because reading it
      throws — costs only its own submission: the scan carries on, and every
      other entry is submitted as before, in the same order. */
  lemma ChangedEntryCostsOnlyItself(props: Properties, props2: Properties, n: nat)
    requires SameOutside(props, props2, n) && 1 <= n < Gap(props)
    requires Key(UrlField, n) in props2 && !Examine(props2, n).Admitted?
    ensures Gap(props2) == Gap(props)
    ensures ProcessUrls(props2) == Without(ProcessUrls(props), n)
  {
    ScanSameOutside(props, props2, n);
    SubmittedWithout(Scan(props), 1, n - 1, Examine(props2, n));
  }

  /** The same, for a value written into a non-url field of entry `n`. */
  lemma SkippedEntryCostsOnlyItself(props: Properties, f: string, n: nat, v: string)
    requires f in Fields && f != UrlField
    requires 1 <= n < Gap(props)
    requires !Examine(props[Key(f, n) := v], n).Admitted?
    ensures Gap(props[Key(f, n) := v]) == Gap(props)
    ensures ProcessUrls(props[Key(f, n) := v]) == Without(ProcessUrls(props), n)
  {
    UpdateSameOutside(props, f, n, v);
    ChangedEntryCostsOnlyItself(props, props[Key(f, n) := v], n);
  }

  /** A missing `username<n>` or `password<n>` makes reading entry `n` throw a
      `NullPointerException` (after the poll interval is read); that entry
      alone is dropped. */
  lemma MissingCredentialSkipsOnlyItsEntry(props: Properties, f: string, n: nat)
    requires f == UsernameField || f == PasswordField
    requires 1 <= n < Gap(props)
    ensures Key(UrlField, n) in props - {Key(f, n)}
    ensures Examine(props - {Key(f, n)}, n).Failed?
    ensures PollIntervalOf(props, n).Some? && Key(UsernameField, n) in props ==>
      Examine(props - {Key(f, n)}, n) == Failed(if f == UsernameField then NullUsername else NullPassword)
    ensures Gap(props - {Key(f, n)}) == Gap(props)
    ensures ProcessUrls(props - {Key(f, n)}) == Without(ProcessUrls(props), n)
  {
    RemovalSameOutside(props, f, n);
    ExamineWithoutCredential(props, f, n);
    ChangedEntryCostsOnlyItself(props, props - {Key(f, n)}, n);
  }

  lemma ExamineWithoutCredential(props: Properties, f: string, n: nat)
    requires f == UsernameField || f == PasswordField
    requires Key(UrlField, n) in props
    requires SameOutside(props, props - {Key(f, n)}, n)
    ensures Key(UrlField, n) in props - {Key(f, n)}
    ensures Examine(props - {Key(f, n)}, n).Failed?
    ensures PollIntervalOf(props, n).Some? && Key(UsernameField, n) in props ==>
      Examine(props - {Key(f, n)}, n) == Failed(if f == UsernameField then NullUsername else NullPassword)
  {
    var props2 := props - {Key(f, n)};
    assert SameAt(props, props2, Key(UrlField, n));
    FieldKeysApart(PollIntervalField, f, n);
    assert PollIntervalOf(props2, n) == PollIntervalOf(props, n);
    if f == PasswordField {
      FieldKeysApart(UsernameField, f, n);
    }
  }

  /** Two fields of the same entry have different keys. */
  lemma FieldKeysApart(f: string, g: string, n: nat)
    requires f in Fields && g in Fields && f != g
    ensures Key(f, n) != Key(g, n)
  {
    KeyStart(f, n);
    KeyStart(g, n);
    FieldsStartApart();
  }

  /** An unparseable `pollInterval<n>` makes reading entry `n` throw; that
      entry alone is dropped. */
  lemma BadPollIntervalSkipsOnlyItsEntry(props: Properties, n: nat, v: string)
    requires 1 <= n < Gap(props)
    requires ParseInt(v).None?
    ensures Examine(props[Key(PollIntervalField, n) := v], n) == Failed(BadPollInterval)
    ensures ProcessUrls(props[Key(PollIntervalField, n) := v]) == Without(ProcessUrls(props), n)
  {
    OtherKeysUnchanged(props, PollIntervalField, n, v, UrlField, n);
    SkippedEntryCostsOnlyItself(props, PollIntervalField, n, v);
  }

  lemma {:induction false} WithoutAbsent(subs: seq<Submission>, n: nat)
    requires forall i :: 0 <= i < |subs| ==> subs[i].index != n
    ensures Without(subs, n) == subs
  {
    if |subs| > 0 {
      assert subs[0].index != n;
      WithoutAbsent(subs[1..], n);
      assert subs == [subs[0]] + subs[1..];
    }
  }

  /** Replacing the outcome of entry `first + k` by one that is not admitted
      removes exactly that entry's submission. */
  lemma {:induction false} SubmittedWithout(outs: seq<EntryOutcome>, first: nat, k: nat, o: EntryOutcome)
    requires k < |outs| && !o.Admitted?
    ensures Submitted(outs[k := o], first) == Without(Submitted(outs, first), first + k)
    decreases |outs|
  {
    if k == 0 {
      SubmittedWithoutFirst(outs, first, o);
    } else {
      var outs2 := outs[k := o];
      assert outs2[1..] == outs[1..][k - 1 := o];
      assert outs2[0] == outs[0];
      SubmittedWithout(outs[1..], first + 1, k - 1, o);
      if outs[0].Admitted? {
        WithoutCons(Submission(first, outs[0].info), Submitted(outs[1..], first + 1), first + k);
      }
    }
  }

  lemma WithoutCons(s: Submission, rest: seq<Submission>, n: nat)
    requires s.index != n
    ensures Without([s] + rest, n) == [s] + Without(rest, n)
  {
    assert ([s] + rest)[1..] == rest;
  }

  lemma SubmittedWithoutFirst(outs: seq<EntryOutcome>, first: nat, o: EntryOutcome)
    requires 0 < |outs| && !o.Admitted?
    ensures Submitted(outs[0 := o], first) == Without(Submitted(outs, first), first)
  {
    var rest := Submitted(outs[1..], first + 1);
    assert outs[0 := o][1..] == outs[1..];
    SubmittedSound(outs[1..], first + 1);
    forall i | 0 <= i < |rest|
      ensures rest[i].index != first
    {
      assert rest[i] in rest;
    }
    WithoutAbsent(rest, first);
    if outs[0].Admitted? {
      var all := [Submission(first, outs[0].info)] + rest;
      assert all[1..] == rest;
    }
  }

  /** The placeholder password is never looked for: an admitted entry stays
      admitted, with that password, when its password is "password". */
  lemma PlaceholderPasswordAccepted(props: Properties, n: nat)
    requires Key(UrlField, n) in props && Examine(props, n).Admitted?
    ensures Key(UrlField, n) in props[Key(PasswordField, n) := "password"]
    ensures Examine(props[Key(PasswordField, n) := "password"], n)
      == Admitted(Examine(props, n).info.(password := "password"))
  {
    var v := "password";
    OtherKeysUnchanged(props, PasswordField, n, v, UrlField, n);
    OtherKeysUnchanged(props, PasswordField, n, v, PollIntervalField, n);
    OtherKeysUnchanged(props, PasswordField, n, v, UsernameField, n);
    OtherKeysUnchanged(props, PasswordField, n, v, OutfileField, n);
  }

  /** The poll interval is never range-checked: an admitted entry stays
      admitted with whatever `int` its `pollInterval<n>` parses to, zero and
      negative values included. */
  lemma AnyParsedIntervalAccepted(props: Properties, n: nat, v: string)
    requires Key(UrlField, n) in props && Examine(props, n).Admitted?
    requires ParseInt(v).Some?
    ensures Key(UrlField, n) in props[Key(PollIntervalField, n) := v]
    ensures Examine(props[Key(PollIntervalField, n) := v], n)
      == Admitted(Examine(props, n).info.(pollInterval := ParseInt(v).value))
  {
    OtherKeysUnchanged(props, PollIntervalField, n, v, UrlField, n);
    OtherKeysUnchanged(props, PollIntervalField, n, v, UsernameField, n);
    OtherKeysUnchanged(props, PollIntervalField, n, v, PasswordField, n);
    OtherKeysUnchanged(props, PollIntervalField, n, v, OutfileField, n);
  }

  lemma ZeroAndNegativeIntervalsParse()
    ensures ParseInt("0") == Some(0) && ParseInt("-5") == Some(-5)
  {
    ParseIntOfIntToString(0);
    ParseIntOfIntToString(-5);
    assert IntToString(0) == "0" && IntToString(-5) == "-5";
  }
}
