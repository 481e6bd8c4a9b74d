/** The configuration of the classifier service: the user's addresses and
    directories come from the environment, and the role check takes any of
    several addresses. */
module Config {
  import opened Wrappers
  import opened Strings
  import opened InputFormat
  import FlatConfig

  const DEFAULT_MY_EMAIL: string := "me@company.com"
  const DEFAULT_MODEL_DIR: string := "../email_classifier_data/model"
  const DEFAULT_TRAINING_DATA_DIR: string := "TrainingData"

  /** An address as it is kept: non-empty, no surrounding whitespace, no
      upper-case letters. */
  ghost predicate CleanAddress(a: string) {
    a != [] && !IsSpace(a[0]) && !IsSpace(a[|a| - 1]) && Lower(a) == a
  }

  lemma LowerKeepsSpace(s: string)
    requires s != []
    ensures IsSpace(Lower(s)[0]) <==> IsSpace(s[0])
    ensures IsSpace(Lower(s)[|s| - 1]) <==> IsSpace(s[|s| - 1])
  {
  }

  /** The comprehension over the comma-separated pieces: each stripped and
      lower-cased, blank ones dropped. */
  function CleanAddresses(pieces: seq<string>): (r: seq<string>)
    ensures |r| <= |pieces|
  {
    if pieces == [] then []
    else
      var a := Strip(pieces[0]);
      if a == [] then CleanAddresses(pieces[1..]) else [Lower(a)] + CleanAddresses(pieces[1..])
  }

  lemma CleanOfStripped(a: string)
    requires a == Strip(a) && a != []
    ensures CleanAddress(Lower(a))
  {
    LowerKeepsSpace(a);
    LowerIdempotent(a);
  }

  /** Every address kept is non-empty, stripped and lower-case. */
  lemma {:induction false} CleanAddressesAreClean(pieces: seq<string>)
    ensures forall k :: 0 <= k < |CleanAddresses(pieces)| ==> CleanAddress(CleanAddresses(pieces)[k])
  {
    if pieces != [] {
      var rest := CleanAddresses(pieces[1..]);
      assert forall k :: 0 <= k < |rest| ==> CleanAddress(rest[k]) by {
        CleanAddressesAreClean(pieces[1..]);
      }
      var a := Strip(pieces[0]);
      if a != [] {
        assert CleanAddress(Lower(a)) by {
          StripStripped(pieces[0]);
          CleanOfStripped(a);
        }
        assert CleanAddresses(pieces) == [Lower(a)] + rest;
        CleanCons(Lower(a), rest);
      } else {
        assert CleanAddresses(pieces) == rest;
      }
    }
  }

  lemma CleanCons(x: string, rest: seq<string>)
    requires CleanAddress(x) && forall k :: 0 <= k < |rest| ==> CleanAddress(rest[k])
    ensures forall k :: 0 <= k < |[x] + rest| ==> CleanAddress(([x] + rest)[k])
  {
    var r := [x] + rest;
    forall k | 0 <= k < |r| ensures CleanAddress(r[k]) {
      if k > 0 {
        assert r[k] == rest[k - 1];
      }
    }
  }

  /** `MY_EMAILS`, from the value of the `MY_EMAIL` variable (absent: the
      built-in address). */
  function ParseMyEmails(env: Option<string>): (r: seq<string>)
    ensures forall k :: 0 <= k < |r| ==> CleanAddress(r[k])
  {
    CleanAddressesAreClean(Split(env.GetOr(DEFAULT_MY_EMAIL), ','));
    CleanAddresses(Split(env.GetOr(DEFAULT_MY_EMAIL), ','))
  }

  lemma CleanIsFixed(a: string)
    requires CleanAddress(a)
    ensures Strip(a) == a && Lower(a) == a
  {
    StripNoSpace(a);
  }

  /** Clean pieces pass through the comprehension unchanged, in order. */
  lemma {:induction false} CleanAddressesOfClean(addrs: seq<string>)
    requires forall k :: 0 <= k < |addrs| ==> CleanAddress(addrs[k])
    ensures CleanAddresses(addrs) == addrs
  {
    if addrs != [] {
      var x := addrs[0];
      var rest := addrs[1..];
      assert CleanAddresses(rest) == rest by {
        assert forall k :: 0 <= k < |rest| ==> rest[k] == addrs[k + 1];
        CleanAddressesOfClean(rest);
      }
      assert Strip(x) == x && Lower(x) == x by {
        CleanIsFixed(x);
      }
      assert CleanAddresses(addrs) == [x] + CleanAddresses(rest);
      assert [x] + rest == addrs;
    }
  }

  /** Writing clean addresses into the variable comma-separated gives them
      back in the same order. */
  lemma ParseMyEmailsRoundTrip(addrs: seq<string>)
    requires |addrs| >= 1
    requires forall k :: 0 <= k < |addrs| ==> CleanAddress(addrs[k]) && ',' !in addrs[k]
    ensures ParseMyEmails(Some(Join(addrs, ","))) == addrs
  {
    SplitJoin(addrs, ',');
    CleanAddressesOfClean(addrs);
  }

  /** A variable set to nothing but commas and blanks leaves no address. */
  lemma {:induction false} BlankPiecesGiveNoAddress(pieces: seq<string>)
    requires forall k :: 0 <= k < |pieces| ==> Strip(pieces[k]) == []
    ensures CleanAddresses(pieces) == []
  {
    if pieces != [] {
      BlankPiecesGiveNoAddress(pieces[1..]);
    }
  }

  lemma DefaultIsOnePiece()
    ensures Split(DEFAULT_MY_EMAIL, ',') == [DEFAULT_MY_EMAIL]
  {
    SplitNoSeparator(DEFAULT_MY_EMAIL, ',');
  }

  lemma DefaultIsStripped()
    ensures Strip(DEFAULT_MY_EMAIL) == DEFAULT_MY_EMAIL
  {
    var a := DEFAULT_MY_EMAIL;
    assert !IsSpace(a[0]) && !IsSpace(a[|a| - 1]);
    StripNoSpace(a);
  }

  lemma DefaultIsLowerCase()
    ensures Lower(DEFAULT_MY_EMAIL) == DEFAULT_MY_EMAIL
  {
    var a := DEFAULT_MY_EMAIL;
    assert forall i :: 0 <= i < |a| ==> !('A' <= a[i] <= 'Z');
    LowerNoUpper(a);
  }

  /** Without the variable the list is the one built-in address. */
  lemma DefaultMyEmails()
    ensures ParseMyEmails(None) == [DEFAULT_MY_EMAIL]
  {
    DefaultIsOnePiece();
    DefaultIsStripped();
    DefaultIsLowerCase();
    var a := DEFAULT_MY_EMAIL;
    assert CleanAddresses([a]) == [Lower(a)] + CleanAddresses([]);
  }

  /** `os.getenv(name) or default`: the default when the variable is unset
      or set to the empty string. */
  function EnvOr(env: Option<string>, default: string): (r: string)
    requires default != []
    ensures r != []
    ensures env.Some? && env.value != [] ==> r == env.value
    ensures env.None? || env.value == [] ==> r == default
  {
    if env.Some? && env.value != [] then env.value else default
  }

  function ModelOutputDir(env: Option<string>): (r: string)
    ensures r != []
  {
    EnvOr(env, DEFAULT_MODEL_DIR)
  }

  function TrainingDataDir(env: Option<string>): (r: string)
    ensures r != []
  {
    EnvOr(env, DEFAULT_TRAINING_DATA_DIR)
  }

  /** Whether some address of `addrs` occurs in `s`; the search loops of
      `determine_role` return on the first hit. */
  function AnyIn(addrs: seq<string>, s: string): (b: bool)
    ensures b <==> exists k :: 0 <= k < |addrs| && Contains(s, addrs[k])
  {
    if addrs == [] then false
    else if Contains(s, addrs[0]) then true
    else
      var rest := AnyIn(addrs[1..], s);
      assert forall k :: 1 <= k < |addrs| ==> addrs[k] == addrs[1..][k - 1];
      rest
  }

  /** `determine_role` over the configured addresses: Direct when any occurs
      in the lower-cased To, else CC when any occurs in the lower-cased CC,
      else Hidden. */
  function DetermineRole(myEmails: seq<string>, to: string, cc: string): (r: Role)
    ensures r == Direct <==> exists k :: 0 <= k < |myEmails| && Contains(Lower(to), myEmails[k])
    ensures r == CC <==>
              (forall k :: 0 <= k < |myEmails| ==> !Contains(Lower(to), myEmails[k]))
              && (exists k :: 0 <= k < |myEmails| && Contains(Lower(cc), myEmails[k]))
    ensures myEmails == [] ==> r == Hidden
  {
    if AnyIn(myEmails, Lower(to)) then Direct
    else if AnyIn(myEmails, Lower(cc)) then CC
    else Hidden
  }

  /** With a single address the role is decided by that address alone. */
  lemma RoleOfOneAddress(a: string, to: string, cc: string)
    ensures DetermineRole([a], to, cc)
         == if Contains(Lower(to), a) then Direct else if Contains(Lower(cc), a) then CC else Hidden
  {
    var addrs := [a];
    assert addrs[0] == a;
  }

  /** With the one built-in address, the multi-address role agrees with the
      single-address one of the flat configuration. */
  lemma DetermineRoleAgreesWithFlat(to: string, cc: string)
    ensures DetermineRole(ParseMyEmails(None), to, cc) == FlatConfig.DetermineRole(to, cc)
  {
    DefaultMyEmails();
    DefaultIsLowerCase();
    RoleOfOneAddress(DEFAULT_MY_EMAIL, to, cc);
  }

  /** `format_model_input` with the role over the configured addresses. */
  function FormatModelInput(myEmails: seq<string>, subject: string, body: string, sender: string,
                            to: string, cc: string, massMail: bool,
                            attachmentTypes: Option<seq<string>>): (r: string)
    ensures StartsWith(r, E5_PREFIX)
  {
    FormatWithRole(DetermineRole(myEmails, to, cc), subject, body, sender, to, massMail, attachmentTypes)
  }

  lemma FormatModelInputFields(myEmails: seq<string>, subject: string, body: string, sender: string,
                               to: string, cc: string, massMail: bool, attachmentTypes: Option<seq<string>>)
    requires NoBar(subject) && NoBar(body) && NoBar(sender) && NoBar(to)
    requires forall k :: 0 <= k < |attachmentTypes.GetOr([])| ==> NoBar(attachmentTypes.GetOr([])[k])
    ensures Parse(FormatModelInput(myEmails, subject, body, sender, to, cc, massMail, attachmentTypes))
         == Some(ModelInput(RoleText(DetermineRole(myEmails, to, cc)), YesNo(massMail),
                            FormatAttachmentTypes(attachmentTypes.GetOr([])), sender, to, subject, body))
  {
    FormatWithRoleReadBack(DetermineRole(myEmails, to, cc), subject, body, sender, to, massMail, attachmentTypes);
  }

  /** With the built-in address both configurations write the same text. */
  lemma FormatModelInputAgreesWithFlat(subject: string, body: string, sender: string, to: string, cc: string,
                                       massMail: bool, attachmentTypes: Option<seq<string>>)
    ensures FormatModelInput(ParseMyEmails(None), subject, body, sender, to, cc, massMail, attachmentTypes)
         == FlatConfig.FormatModelInput(subject, body, sender, to, cc, massMail, attachmentTypes)
  {
    DetermineRoleAgreesWithFlat(to, cc);
  }
}
