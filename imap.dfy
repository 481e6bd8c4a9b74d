/** The Gmail IMAP client: which account it logs in as, the lifecycle of its
    connection, the filter that keeps only unseen messages without a known
    label, and the quoting of a label sent with STORE. The server is
    represented by its answers: whether it is reachable, whether it accepts
    the login, what a search and each fetch return. */
module Imap {
  import opened Wrappers
  import opened Strings
  import opened Dicts
  import Config

  const IMAP_SERVER: string := "imap.gmail.com"

  /** The login name: `IMAP_USER` when set and non-empty, otherwise the first
      comma-separated piece of `MY_EMAIL`, stripped (empty when that is
      unset). */
  function SelectUser(imapUser: Option<string>, myEmail: Option<string>): (r: string)
    ensures imapUser.Some? && imapUser.value != "" ==> r == imapUser.value
  {
    if imapUser.Some? && imapUser.value != "" then imapUser.value
    else Strip(Split(myEmail.GetOr(""), ',')[0])
  }

  /** Without `IMAP_USER` the login holds no comma and no surrounding
      blanks. */
  lemma FallbackUserShape(imapUser: Option<string>, myEmail: Option<string>)
    requires !(imapUser.Some? && imapUser.value != "")
    ensures var r := SelectUser(imapUser, myEmail);
      ',' !in r && (r == [] || (!IsSpace(r[0]) && !IsSpace(r[|r| - 1])))
  {
    var first := Split(myEmail.GetOr(""), ',')[0];
    assert SelectUser(imapUser, myEmail) == Strip(first);
    StripKeeps(first, ',');
  }

  /** Without `IMAP_USER`, the login is the first of the configured
      addresses, up to letter case. */
  lemma UserIsFirstAddress(myEmail: string)
    requires Strip(Split(myEmail, ',')[0]) != []
    ensures Lower(SelectUser(None, Some(myEmail))) == Config.ParseMyEmails(Some(myEmail))[0]
  {
  }

  /** The state of an IMAP session. */
  datatype Session = Session(server: string, user: string, loggedIn: bool, mailbox: Option<string>)

  /** Why `connect` raises. */
  datatype ConnectError = MissingCredentials | Unreachable | LoginRejected

  /** `connect` on the connection `connection`: `alive` is whether a NOOP on
      an existing connection succeeds, `reachable` whether the TLS connection
      opens, `accepted` whether the login is accepted. Gives the new
      connection and the error raised, if any. */
  function ConnectSpec(connection: Option<Session>, user: string, password: Option<string>,
                       alive: bool, reachable: bool, accepted: bool): (r: (Option<Session>, Option<ConnectError>))
    ensures r.1 == Some(MissingCredentials) <==> user == "" || password.None? || password.value == ""
    ensures r.1 == Some(MissingCredentials) ==> r.0 == connection
    ensures r.1.None? ==> r.0.Some?
    ensures r.1.None? && !(connection.Some? && alive) ==> r.0 == Some(Session(IMAP_SERVER, user, true, Some("INBOX")))
    ensures r.1 == Some(Unreachable) ==> r.0.None?
    ensures r.1 == Some(LoginRejected) ==> r.0 == Some(Session(IMAP_SERVER, user, false, None))
    ensures r.1 != Some(MissingCredentials) && connection.Some? && alive ==> r == (connection, None)
    ensures r.1 != Some(MissingCredentials) && !(connection.Some? && alive) ==>
              (r.1.None? <==> reachable && accepted) &&
              (r.1 == Some(Unreachable) <==> !reachable) &&
              (r.1 == Some(LoginRejected) <==> reachable && !accepted)
  {
    if user == "" || password.None? || password.value == "" then (connection, Some(MissingCredentials))
    else if connection.Some? && alive then (connection, None)
    else if !reachable then (None, Some(Unreachable))
    else if !accepted then (Some(Session(IMAP_SERVER, user, false, None)), Some(LoginRejected))
    else (Some(Session(IMAP_SERVER, user, true, Some("INBOX"))), None)
  }

  /** A connection left behind by a rejected login passes the NOOP check:
      the next `connect` returns at once without logging in, and with no
      mailbox selected, so a SEARCH on it is refused. */
  lemma RejectedLoginIsReused(user: string, password: string)
    requires user != "" && password != ""
    ensures var first := ConnectSpec(None, user, Some(password), false, true, false);
            var second := ConnectSpec(first.0, user, Some(password), true, true, true);
            first.1 == Some(LoginRejected) && second.1.None? && !second.0.value.loggedIn &&
            second.0.value.mailbox.None?
  {
  }

  /** Why `fetch_unprocessed_emails` raises: `connect` raised, or the SEARCH
      went to a connection with no mailbox selected, which the server
      refuses (section 6.4.4 of RFC 3501 allows SEARCH only in the Selected
      state). */
  datatype FetchError = ConnectFailed(cause: ConnectError) | NotSelected

  /** A response part of a FETCH: a literal with its metadata line and its
      data, or the bytes between literals. */
  datatype ResponsePart = Literal(metadata: string, data: string) | Between(text: string)

  datatype FetchResponse = FetchResponse(status: string, parts: seq<ResponsePart>)

  datatype SearchResponse = SearchResponse(status: string, data: string)

  const LABELS_MARK: string := "X-GM-LABELS ("

  /** The first position from `i` on holding ')' or a line break, or `|s|`. */
  function CloseFrom(s: string, i: nat): (j: nat)
    requires i <= |s|
    ensures i <= j <= |s|
    ensures j < |s| ==> s[j] == ')' || s[j] == '\n'
    ensures forall m :: i <= m < j ==> s[m] != ')' && s[m] != '\n'
    decreases |s| - i
  {
    if i == |s| || s[i] == ')' || s[i] == '\n' then i else CloseFrom(s, i + 1)
  }

  /** Whether the pattern `X-GM-LABELS \((.*?)\)` matches at `k`. */
  predicate LabelsMatchAt(s: string, k: nat) {
    && k + |LABELS_MARK| <= |s|
    && OccursAt(s, LABELS_MARK, k)
    && CloseFrom(s, k + |LABELS_MARK|) < |s|
    && s[CloseFrom(s, k + |LABELS_MARK|)] == ')'
  }

  /** The leftmost match from `k` on, and its group. */
  function LabelsFrom(s: string, k: nat): (r: Option<string>)
    requires k <= |s|
    ensures r.Some? ==> ')' !in r.value && '\n' !in r.value
    decreases |s| - k
  {
    if k + |LABELS_MARK| > |s| then None
    else if LabelsMatchAt(s, k) then Some(s[k + |LABELS_MARK|..CloseFrom(s, k + |LABELS_MARK|)])
    else LabelsFrom(s, k + 1)
  }

  /** A group found from `k` on is the text of a match between the marker
      and its ')', and no match starts before that one; finding none means
      no match starts from `k` on. */
  lemma LabelsFromMatch(s: string, k: nat)
    requires k <= |s|
    ensures LabelsFrom(s, k).Some? ==>
      exists m :: k <= m <= |s| - |LABELS_MARK| && LabelsMatchAt(s, m) &&
                  OccursAt(s, LabelsFrom(s, k).value + ")", m + |LABELS_MARK|) &&
                  forall m' :: k <= m' < m ==> !LabelsMatchAt(s, m')
    ensures LabelsFrom(s, k).None? ==> forall m :: k <= m <= |s| ==> !LabelsMatchAt(s, m)
  {
    if LabelsFrom(s, k).Some? {
      LabelsFromFound(s, k);
    } else {
      LabelsFromNone(s, k);
    }
  }

  lemma {:induction false} LabelsFromFound(s: string, k: nat)
    requires k <= |s| && LabelsFrom(s, k).Some?
    ensures exists m :: k <= m <= |s| - |LABELS_MARK| && LabelsMatchAt(s, m) &&
                        OccursAt(s, LabelsFrom(s, k).value + ")", m + |LABELS_MARK|) &&
                        forall m' :: k <= m' < m ==> !LabelsMatchAt(s, m')
    decreases |s| - k
  {
    if LabelsMatchAt(s, k) {
      LabelsMatchGroup(s, k);
    } else {
      assert LabelsFrom(s, k) == LabelsFrom(s, k + 1);
      LabelsFromFound(s, k + 1);
      var m :| k + 1 <= m <= |s| - |LABELS_MARK| && LabelsMatchAt(s, m) &&
               OccursAt(s, LabelsFrom(s, k).value + ")", m + |LABELS_MARK|) &&
               forall m' :: k + 1 <= m' < m ==> !LabelsMatchAt(s, m');
      assert forall m' :: k <= m' < m ==> !LabelsMatchAt(s, m');
    }
  }

  lemma LabelsMatchGroup(s: string, k: nat)
    requires LabelsMatchAt(s, k)
    ensures LabelsFrom(s, k).Some? && OccursAt(s, LabelsFrom(s, k).value + ")", k + |LABELS_MARK|)
  {
    var j := CloseFrom(s, k + |LABELS_MARK|);
    assert s[k + |LABELS_MARK|..j + 1] == LabelsFrom(s, k).value + ")";
  }

  lemma {:induction false} LabelsFromNone(s: string, k: nat)
    requires k <= |s| && LabelsFrom(s, k).None?
    ensures forall m :: k <= m <= |s| ==> !LabelsMatchAt(s, m)
    decreases |s| - k
  {
    if k + |LABELS_MARK| <= |s| {
      LabelsFromNone(s, k + 1);
    }
  }

  /** `re.search(r'X-GM-LABELS \((.*?)\)', metadata)`: the text between the
      parenthesis after the marker and the next ')', provided no line break
      comes first. */
  function ExtractLabels(metadata: string): (r: Option<string>)
    ensures r.None? <==> forall m :: 0 <= m <= |metadata| ==> !LabelsMatchAt(metadata, m)
  {
    LabelsFromMatch(metadata, 0);
    LabelsFrom(metadata, 0)
  }

  lemma {:induction false} LabelsFromSkips(s: string, k: nat, n: nat)
    requires k <= n <= |s|
    requires forall m :: k <= m < n ==> !LabelsMatchAt(s, m)
    ensures LabelsFrom(s, k) == LabelsFrom(s, n)
    decreases n - k
  {
    if k < n {
      assert LabelsFrom(s, k) == LabelsFrom(s, k + 1) by {
        assert !LabelsMatchAt(s, k);
      }
      LabelsFromSkips(s, k + 1, n);
    }
  }

  /** `CloseFrom` stops at the first ')' after a run free of ')' and line
      breaks. */
  lemma {:induction false} CloseFromStops(s: string, i: nat, e: nat)
    requires i <= e < |s| && s[e] == ')'
    requires forall m :: i <= m < e ==> s[m] != ')' && s[m] != '\n'
    ensures CloseFrom(s, i) == e
    decreases e - i
  {
    if i < e {
      CloseFromStops(s, i + 1, e);
    }
  }

  /** Where the marker is followed by the labels and a ')', the match is
      there and its group is the labels. */
  lemma MatchHere(s: string, n: nat, labels: string)
    requires n + |LABELS_MARK| + |labels| < |s|
    requires OccursAt(s, LABELS_MARK, n)
    requires ')' !in labels && '\n' !in labels
    requires s[n + |LABELS_MARK|..n + |LABELS_MARK| + |labels|] == labels
    requires s[n + |LABELS_MARK| + |labels|] == ')'
    ensures LabelsFrom(s, n) == Some(labels)
  {
    var start := n + |LABELS_MARK|;
    var e := start + |labels|;
    forall m | start <= m < e ensures s[m] != ')' && s[m] != '\n' {
      assert s[m] == labels[m - start];
    }
    CloseFromStops(s, start, e);
  }

  /** No match starts before the first 'X'. */
  lemma NoMatchBefore(s: string, p: nat)
    requires p <= |s|
    requires forall m :: 0 <= m < p ==> s[m] != 'X'
    ensures LabelsFrom(s, 0) == LabelsFrom(s, p)
  {
    forall m | 0 <= m < p ensures !LabelsMatchAt(s, m) {
      NoMarkAt(s, m);
    }
    LabelsFromSkips(s, 0, p);
  }

  /** The marker does not start at a character other than 'X'. */
  lemma NoMarkAt(s: string, m: nat)
    requires m < |s| && s[m] != 'X'
    ensures !OccursAt(s, LABELS_MARK, m)
  {
    if m + |LABELS_MARK| <= |s| {
      assert s[m..m + |LABELS_MARK|][0] == s[m];
      assert LABELS_MARK[0] == 'X';
    }
  }

  /** Where the pieces of a metadata line lie. */
  lemma LayoutOf(pre: string, labels: string, post: string)
    ensures var s := pre + LABELS_MARK + labels + ")" + post;
      var start := |pre| + |LABELS_MARK|;
      && s[..|pre|] == pre
      && start + |labels| < |s|
      && OccursAt(s, LABELS_MARK, |pre|)
      && s[start..start + |labels|] == labels
      && s[start + |labels|] == ')'
  {
    var head := pre + LABELS_MARK;
    var rest := labels + ")" + post;
    var s := head + rest;
    assert s == pre + LABELS_MARK + labels + ")" + post;
    var start := |head|;
    assert s[|pre|..start] == head[|pre|..] == LABELS_MARK;
    assert s[start..] == rest;
    assert rest[..|labels|] == labels && rest[|labels|] == ')';
    assert s[start..start + |labels|] == s[start..][..|labels|];
    assert s[start + |labels|] == s[start..][|labels|];
  }

  /** The first match of a line with no 'X' before position `p`, where the
      marker, the labels and ')' follow. */
  lemma FirstMatchAt(s: string, p: nat, labels: string)
    requires p + |LABELS_MARK| + |labels| < |s|
    requires forall m :: 0 <= m < p ==> s[m] != 'X'
    requires OccursAt(s, LABELS_MARK, p)
    requires ')' !in labels && '\n' !in labels
    requires s[p + |LABELS_MARK|..p + |LABELS_MARK| + |labels|] == labels
    requires s[p + |LABELS_MARK| + |labels|] == ')'
    ensures LabelsFrom(s, 0) == Some(labels)
  {
    NoMatchBefore(s, p);
    MatchHere(s, p, labels);
  }

  /** A metadata line whose prefix has no 'X' yields the labels written in
      it. */
  lemma ExtractLabelsOf(pre: string, labels: string, post: string)
    requires 'X' !in pre
    requires ')' !in labels && '\n' !in labels
    ensures ExtractLabels(pre + LABELS_MARK + labels + ")" + post) == Some(labels)
  {
    var s := pre + LABELS_MARK + labels + ")" + post;
    LayoutOf(pre, labels, post);
    forall m | 0 <= m < |pre| ensures s[m] != 'X' {
      assert s[m] == s[..|pre|][m];
    }
    FirstMatchAt(s, |pre|, labels);
  }

  /** The loop over the response parts: the data of the last literal, and the
      labels of the last literal whose metadata names them. */
  function ReadParts(parts: seq<ResponsePart>): (r: (Option<string>, string)) {
    if parts == [] then (None, "")
    else
      var prev := ReadParts(parts[..|parts| - 1]);
      var p := parts[|parts| - 1];
      if p.Literal? then
        (Some(p.data), match ExtractLabels(p.metadata) case Some(l) => l case None => prev.1)
      else prev
  }

  /** The data kept is that of the last literal. */
  lemma {:induction false} ReadPartsData(parts: seq<ResponsePart>)
    ensures ReadParts(parts).0.Some? <==> exists i :: 0 <= i < |parts| && parts[i].Literal?
    ensures ReadParts(parts).0.Some? ==>
      exists i :: 0 <= i < |parts| && parts[i].Literal? && ReadParts(parts).0.value == parts[i].data &&
                  forall j :: i < j < |parts| ==> !parts[j].Literal?
  {
    if parts != [] {
      var init := parts[..|parts| - 1];
      var last := parts[|parts| - 1];
      assert ReadParts(parts).0 == if last.Literal? then Some(last.data) else ReadParts(init).0;
      if last.Literal? {
        assert parts[|parts| - 1].Literal?;
      } else {
        ReadPartsData(init);
        if ReadParts(init).0.Some? {
          var i :| 0 <= i < |init| && init[i].Literal? && ReadParts(init).0.value == init[i].data &&
                   forall j :: i < j < |init| ==> !init[j].Literal?;
          assert parts[i] == init[i];
          forall j | i < j < |parts| ensures !parts[j].Literal? {
            if j < |init| {
              assert parts[j] == init[j];
            }
          }
        } else {
          forall i | 0 <= i < |parts| ensures !parts[i].Literal? {
            if i < |init| {
              assert parts[i] == init[i];
            }
          }
        }
      }
    }
  }

  /** A space as the pattern's `\s`, or one of the given delimiters. */
  predicate Delimits(c: char, d: char) { IsSpace(c) || c == d }

  /** Whether `name` stands as a token at `i`: preceded by the start, a space
      or '(' and followed by the end, a space or ')', each with an optional
      double quote between. */
  predicate TokenAt(s: string, name: string, i: int) {
    var j := i + |name|;
    && OccursAt(s, name, i)
    && (i == 0 || Delimits(s[i - 1], '(') || (s[i - 1] == '"' && (i == 1 || Delimits(s[i - 2], '('))))
    && (j == |s| || Delimits(s[j], ')') || (s[j] == '"' && (j + 1 == |s| || Delimits(s[j + 1], ')'))))
  }

  /** `re.search(fr'(?:^|\s|\()"??{re.escape(name)}"??(?:$|\s|\))', labels)` */
  predicate HasToken(labels: string, name: string) {
    exists i | 0 <= i <= |labels| - |name| :: TokenAt(labels, name, i)
  }

  /** Whether any known label is among `labels`. */
  predicate KnownLabel(labels: string, known: seq<string>) {
    exists k | 0 <= k < |known| :: HasToken(labels, known[k])
  }

  /** A label between delimiters is recognised. */
  lemma TokenBetween(pre: string, name: string, post: string)
    requires pre == [] || Delimits(pre[|pre| - 1], '(')
    requires post == [] || Delimits(post[0], ')')
    ensures HasToken(pre + name + post, name)
  {
    var s := pre + name + post;
    assert s[|pre|..|pre| + |name|] == name;
    assert TokenAt(s, name, |pre|);
  }

  /** A quoted label between delimiters is recognised. */
  lemma QuotedTokenBetween(pre: string, name: string, post: string)
    requires pre == [] || Delimits(pre[|pre| - 1], '(')
    requires post == [] || Delimits(post[0], ')')
    ensures HasToken(pre + ("\"" + name + "\"") + post, name)
  {
    var s := pre + ("\"" + name + "\"") + post;
    var i := |pre| + 1;
    assert s[i..i + |name|] == name;
    assert s[i - 1] == '"' && s[i + |name|] == '"';
    assert TokenAt(s, name, i);
  }

  /** A label that only starts a longer word is not recognised: neither
      holds a space, a parenthesis or a double quote, so the label is
      preceded by nothing but the start and followed by a letter of the
      word. */
  lemma PrefixIsNoToken(name: string, rest: string)
    requires rest != []
    requires forall c :: c in name + rest ==> !IsSpace(c) && c != '(' && c != ')' && c != '"'
    ensures !HasToken(name + rest, name)
  {
    var s := name + rest;
    forall i | 0 <= i <= |s| - |name| ensures !TokenAt(s, name, i) {
      if i > 0 {
        assert s[i - 1] in s;
      } else {
        assert s[|name|] in s;
      }
    }
  }

  /** The test the fetch loop applies to one response. */
  predicate Kept(response: FetchResponse, known: seq<string>) {
    var read := ReadParts(response.parts);
    && response.status == "OK"
    && read.0.Some? && read.0.value != ""
    && !KnownLabel(read.1, known)
  }

  /** The messages the fetch loop keeps, with their raw data, in id order. */
  function FetchSpec(ids: seq<string>, fetch: string -> FetchResponse, known: seq<string>): (r: seq<(string, string)>)
    ensures |r| <= |ids|
    ensures multiset(Keys(r)) <= multiset(ids)
  {
    if ids == [] then []
    else
      var init := FetchSpec(ids[..|ids| - 1], fetch, known);
      var id := ids[|ids| - 1];
      assert ids == ids[..|ids| - 1] + [id];
      if Kept(fetch(id), known) then
        var r := init + [(id, ReadParts(fetch(id).parts).0.value)];
        assert Keys(r) == Keys(init) + [id];
        r
      else init
  }

  /** `fetch_unprocessed_emails` once connected. */
  function UnprocessedSpec(search: SearchResponse, fetch: string -> FetchResponse, known: seq<string>): seq<(string, string)> {
    if search.status != "OK" || search.data == "" then [] else FetchSpec(SplitWhitespace(search.data), fetch, known)
  }

  /** A message is returned exactly when its fetch succeeded, it has data,
      and it carries no known label; it comes with that data. */
  lemma {:induction false} FetchKeeps(ids: seq<string>, fetch: string -> FetchResponse, known: seq<string>)
    ensures forall p :: p in FetchSpec(ids, fetch, known) ==>
      p.0 in ids && Kept(fetch(p.0), known) && p.1 == ReadParts(fetch(p.0).parts).0.value
    ensures forall id :: id in ids && Kept(fetch(id), known) ==>
      (id, ReadParts(fetch(id).parts).0.value) in FetchSpec(ids, fetch, known)
  {
    if ids != [] {
      var init := ids[..|ids| - 1];
      FetchKeeps(init, fetch, known);
      assert ids == init + [ids[|ids| - 1]];
    }
  }

  /** `xs` is `ys` with some elements left out. */
  ghost predicate Subsequence(xs: seq<string>, ys: seq<string>) {
    if ys == [] then xs == []
    else
      Subsequence(xs, ys[..|ys| - 1]) ||
      (xs != [] && xs[|xs| - 1] == ys[|ys| - 1] && Subsequence(xs[..|xs| - 1], ys[..|ys| - 1]))
  }

  /** The ids returned keep the server's order. */
  lemma {:induction false} FetchInIdOrder(ids: seq<string>, fetch: string -> FetchResponse, known: seq<string>)
    ensures Subsequence(Keys(FetchSpec(ids, fetch, known)), ids)
  {
    if ids != [] {
      var init := ids[..|ids| - 1];
      FetchInIdOrder(init, fetch, known);
      var r := FetchSpec(ids, fetch, known);
      if r != FetchSpec(init, fetch, known) {
        assert Keys(r)[..|r| - 1] == Keys(FetchSpec(init, fetch, known));
      }
    }
  }

  /** With no known labels only failed fetches and empty messages are left
      out. */
  lemma NoKnownLabels(response: FetchResponse)
    ensures Kept(response, []) <==>
      response.status == "OK" && ReadParts(response.parts).0.Some? && ReadParts(response.parts).0.value != ""
  {
  }

  /** A failed or empty search gives no messages. */
  lemma EmptySearch(search: SearchResponse, fetch: string -> FetchResponse, known: seq<string>)
    requires search.status != "OK" || search.data == ""
    ensures UnprocessedSpec(search, fetch, known) == []
  {
  }

  /** The label as `apply_label` sends it: quoted when it holds a space. */
  function QuoteLabel(name: string): (r: string)
    ensures ' ' in name ==> |r| == |name| + 2 && r[0] == '"' && r[|r| - 1] == '"' && r[1..|r| - 1] == name
    ensures ' ' !in name ==> r == name
  {
    if ' ' in name then "\"" + name + "\"" else name
  }

  /** A label as it was sent, once it is listed among others, is recognised
      by the filter of the fetch loop. */
  lemma SentLabelIsRecognised(pre: string, name: string, post: string)
    requires pre == [] || Delimits(pre[|pre| - 1], '(')
    requires post == [] || Delimits(post[0], ')')
    ensures HasToken(pre + QuoteLabel(name) + post, name)
  {
    var q := QuoteLabel(name);
    if ' ' in name {
      assert q == "\"" + name + "\"";
      QuotedTokenBetween(pre, name, post);
    } else {
      TokenBetween(pre, name, post);
    }
  }

  class GmailClient {
    var user: string
    var password: Option<string>
    var connection: Option<Session>

    /** `GmailClient()` from the environment values given. */
    constructor(imapUser: Option<string>, myEmail: Option<string>, imapPassword: Option<string>)
      ensures user == SelectUser(imapUser, myEmail)
      ensures password == imapPassword && connection == None
    {
      connection := None;
      password := imapPassword;
      user := SelectUser(imapUser, myEmail);
    }

    /** `connect`. */
    method Connect(alive: bool, reachable: bool, accepted: bool) returns (err: Option<ConnectError>)
      modifies this
      ensures user == old(user) && password == old(password)
      ensures (connection, err) == ConnectSpec(old(connection), user, password, alive, reachable, accepted)
    {
      err := None;
      if user == "" || password.None? || password.value == "" {
        err := Some(MissingCredentials);
        return;
      }
      if connection.Some? {
        if alive {
          return;
        }
        connection := None;
      }
      if !reachable {
        err := Some(Unreachable);
        return;
      }
      connection := Some(Session(IMAP_SERVER, user, false, None));
      if !accepted {
        err := Some(LoginRejected);
        return;
      }
      connection := Some(connection.value.(loggedIn := true));
      connection := Some(connection.value.(mailbox := Some("INBOX")));
    }

    /** `disconnect`: close and logout failures are swallowed, so the
        connection is always gone afterwards. */
    method Disconnect()
      modifies this
      ensures connection.None? && user == old(user) && password == old(password)
    {
      if connection.Some? {
        connection := None;
      }
    }

    /** `fetch_unprocessed_emails`: connect, search, then fetch message by
        message. The messages are returned as raw data. */
    method FetchUnprocessed(known: seq<string>, alive: bool, reachable: bool, accepted: bool,
                            search: SearchResponse, fetch: string -> FetchResponse)
      returns (r: Result<seq<(string, string)>, FetchError>)
      modifies this
      ensures user == old(user) && password == old(password)
      ensures var c := ConnectSpec(old(connection), user, password, alive, reachable, accepted);
              connection == c.0 &&
              (c.1.Some? ==> r == Failure(ConnectFailed(c.1.value))) &&
              (c.1.None? && c.0.value.mailbox.None? ==> r == Failure(NotSelected)) &&
              (c.1.None? && c.0.value.mailbox.Some? ==> r == Success(UnprocessedSpec(search, fetch, known)))
    {
      var err := Connect(alive, reachable, accepted);
      if err.Some? {
        return Failure(ConnectFailed(err.value));
      }
      if connection.value.mailbox.None? {
        return Failure(NotSelected);
      }
      if search.status != "OK" || search.data == "" {
        return Success([]);
      }
      var ids := SplitWhitespace(search.data);
      var results := FetchAll(ids, fetch, known);
      r := Success(results);
    }
  }

  /** The loop over the searched ids. */
  method FetchAll(ids: seq<string>, fetch: string -> FetchResponse, known: seq<string>)
    returns (results: seq<(string, string)>)
    ensures results == FetchSpec(ids, fetch, known)
  {
    results := [];
    for i := 0 to |ids|
      invariant results == FetchSpec(ids[..i], fetch, known)
    {
      assert ids[..i + 1][..i] == ids[..i];
      var response := fetch(ids[i]);
      if response.status != "OK" {
        continue;
      }
      var raw, labels := ReadResponse(response.parts);
      if raw.Some? && raw.value != "" {
        var skip := IsKnown(known, labels);
        if skip {
          continue;
        }
        results := results + [(ids[i], raw.value)];
      }
    }
    assert ids[..|ids|] == ids;
  }

  /** The loop over the parts of one fetch response. */
  method ReadResponse(parts: seq<ResponsePart>) returns (raw: Option<string>, labels: string)
    ensures (raw, labels) == ReadParts(parts)
  {
    raw := None;
    labels := "";
    for i := 0 to |parts|
      invariant (raw, labels) == ReadParts(parts[..i])
    {
      assert parts[..i + 1][..i] == parts[..i];
      var part := parts[i];
      if part.Literal? {
        var found := ExtractLabels(part.metadata);
        if found.Some? {
          labels := found.value;
        }
        raw := Some(part.data);
      }
    }
    assert parts[..|parts|] == parts;
  }

  /** The loop over the known labels, stopping at the first one found. */
  method IsKnown(known: seq<string>, labels: string) returns (skip: bool)
    ensures skip <==> KnownLabel(labels, known)
  {
    skip := false;
    for k := 0 to |known|
      invariant !skip
      invariant forall m :: 0 <= m < k ==> !HasToken(labels, known[m])
    {
      if HasToken(labels, known[k]) {
        skip := true;
        break;
      }
    }
  }
}
