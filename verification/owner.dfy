/**
 * `get_repo_owner`: the decision logic that picks the repository owner
 * from the outputs of a fixed sequence of probes: two `gh` queries, then
 * the `origin` remote URL, then the user's e-mail address.
 */
module OwnerDetection {
  import opened Results
  import opened Text

  /** What `run_safe(cmd)` reported for one probe: exit status 0, and the output text. */
  datatype Probe = Probe(success: bool, output: string)

  datatype OwnerError =
    | OwnerNotDetected   // RuntimeError: no probe named an owner
    | MalformedRemote    // IndexError: a github.com remote URL lacking the separator it is split on

  /** The `gh` queries, tried in this order. */
  const GhAttempts: seq<string> := [
    "gh api user --jq '.login'",
    "gh auth status 2>&1 | grep -E 'Logged in to github.com as' | awk '{print $NF}'"
  ]

  /** A `gh` probe settles the owner when it succeeded and printed more than whitespace. */
  predicate GhAnswers(p: Probe)
  {
    p.success && Strip(p.output) != []
  }

  /** No `gh` probe before index `k` settled the owner. */
  predicate NoneAnswersBefore(probes: seq<Probe>, k: int)
    requires 0 <= k <= |probes|
  {
    forall j :: 0 <= j < k ==> !GhAnswers(probes[j])
  }

  /** The remote URL is parsed when `git config --get remote.origin.url` succeeded with a github.com URL. */
  predicate RemoteApplies(p: Probe)
  {
    p.success && p.output != [] && Contains(p.output, "github.com")
  }

  /** The e-mail is used when `git config user.email` succeeded with text holding an `@`. */
  predicate EmailApplies(p: Probe)
  {
    p.success && p.output != [] && '@' in p.output
  }

  /** `p` is the position of the first `c` in `s`. */
  predicate FirstAt(s: string, c: char, p: int)
  {
    0 <= p < |s| && s[p] == c && c !in s[..p]
  }

  /**
   * `o` is the text right after the first `:` of `url`, up to the next `:`
   * or `/` or the end.
   */
  ghost predicate AfterFirstColon(url: string, o: string)
  {
    exists p :: FirstAt(url, ':', p) && p + 1 + |o| <= |url| && url[p + 1..p + 1 + |o|] == o &&
      (p + 1 + |o| == |url| || url[p + 1 + |o|] == ':' || url[p + 1 + |o|] == '/') &&
      ':' !in o && '/' !in o
  }

  /** `o` starts at `p` in `url` and is the second-to-last `/`-separated segment. */
  predicate SegmentBeforeLastAt(url: string, o: string, p: int)
  {
    0 <= p && p + |o| < |url| && url[p..p + |o|] == o && url[p + |o|] == '/' &&
    (p == 0 || url[p - 1] == '/') && '/' !in o && '/' !in url[p + |o| + 1..]
  }

  /**
   * The owner named by a github.com remote URL: for the SSH form
   * `git@host:owner/repo`, `url.split(':')[1].split('/')[0]`; otherwise
   * `url.split('/')[-2]`.
   */
  function OwnerFromRemote(url: string): (r: Result<string, OwnerError>)
    ensures "git@" <= url ==> (r.Success? <==> ':' in url)
    ensures !("git@" <= url) ==> (r.Success? <==> '/' in url)
    ensures r.Failure? ==> r.error == MalformedRemote
    ensures r.Success? && "git@" <= url ==> AfterFirstColon(url, r.value)
    ensures r.Success? && !("git@" <= url) ==> exists p :: SegmentBeforeLastAt(url, r.value, p)
  {
    if "git@" <= url then
      var parts := Split(url, ':');
      if |parts| < 2 then
        Failure(MalformedRemote)
      else
        var o := Split(parts[1], '/')[0];
        SshOwner(url);
        Success(o)
    else
      var parts := Split(url, '/');
      if |parts| < 2 then
        Failure(MalformedRemote)
      else
        SecondToLastSegment(url, parts[|parts| - 2]);
        Success(parts[|parts| - 2])
  }

  /** The owner of an SSH remote, from the three prefixes that the three splits cut off. */
  lemma {:induction false} SshOwner(url: string)
    requires ':' in url
    ensures AfterFirstColon(url, Split(Split(url, ':')[1], '/')[0])
  {
    var parts := Split(url, ':');
    SplitFirst(url, ':');
    SplitRest(url, ':');
    var a := parts[0];
    var rest := url[|a| + 1..];
    var b := Split(rest, ':')[0];
    assert parts[1] == b;
    SplitFirst(rest, ':');
    var o := Split(b, '/')[0];
    SplitFirst(b, '/');
    AfterFirstColonFromPrefixes(url, a, b, o);
  }

  /**
   * If `a` runs up to the first `:` of `url`, `b` is the colon-free text after it
   * and `o` the slash-free start of `b`, then `o` is what follows the first colon.
   */
  lemma AfterFirstColonFromPrefixes(url: string, a: string, b: string, o: string)
    requires a <= url && |a| < |url| && url[|a|] == ':' && ':' !in a
    requires b <= url[|a| + 1..] && ':' !in b
    requires |a| + 1 + |b| == |url| || url[|a| + 1 + |b|] == ':'
    requires o <= b && '/' !in o && (|o| == |b| || b[|o|] == '/')
    ensures AfterFirstColon(url, o)
  {
    var p := |a|;
    assert url[..p] == a;
    assert url[p + 1..p + 1 + |b|] == b;
    assert url[p + 1..p + 1 + |o|] == o;
    assert ':' !in o by {
      forall k | 0 <= k < |o|
        ensures o[k] != ':'
      {
        assert o[k] == b[k];
      }
    }
    if p + 1 + |o| < |url| && |o| < |b| {
      assert url[p + 1 + |o|] == b[|o|];
    }
    assert FirstAt(url, ':', p);
  }

  /** Joining all pieces is joining all but the last, then the separator and the last piece. */
  lemma {:induction false} JoinSnoc(ps: seq<string>, sep: char)
    requires |ps| >= 2
    ensures Join(ps, sep) == Join(ps[..|ps| - 1], sep) + [sep] + ps[|ps| - 1]
  {
    if |ps| > 2 {
      JoinSnoc(ps[1..], sep);
      assert ps[1..][..|ps| - 2] == ps[..|ps| - 1][1..];
    }
  }

  /** The owner of an HTTPS remote: the second-to-last piece of the split on `/`. */
  lemma {:induction false} SecondToLastSegment(url: string, o: string)
    requires |Split(url, '/')| >= 2 && o == Split(url, '/')[|Split(url, '/')| - 2]
    ensures exists p :: SegmentBeforeLastAt(url, o, p)
  {
    var ps := Split(url, '/');
    var n := |ps|;
    var last := ps[n - 1];
    assert '/' !in o && '/' !in last;
    JoinSnoc(ps, '/');
    var front := Join(ps[..n - 1], '/');
    if n == 2 {
      assert front == o;
      SegmentFromPieces(url, [], o, last);
    } else {
      JoinSnoc(ps[..n - 1], '/');
      assert ps[..n - 1][..n - 2] == ps[..n - 2];
      assert ps[..n - 1][n - 2] == o;
      var head := Join(ps[..n - 2], '/');
      SegmentFromPieces(url, head + ['/'], o, last);
    }
  }

  /** `o` is the second-to-last segment of `pre + o + "/" + last` when `pre` is empty or ends a segment. */
  lemma SegmentFromPieces(url: string, pre: string, o: string, last: string)
    requires url == pre + o + ['/'] + last
    requires '/' !in o && '/' !in last
    requires pre == [] || pre[|pre| - 1] == '/'
    ensures SegmentBeforeLastAt(url, o, |pre|)
  {
    var p := |pre|;
    assert url[p..p + |o|] == o;
    assert url[p + |o| + 1..] == last;
  }

  /** `email.split('@')[0]`: the text before the first `@`. */
  function EmailLocalPart(email: string): (r: string)
    requires '@' in email
    ensures r <= email && '@' !in r && |r| < |email| && email[|r|] == '@'
  {
    SplitFirst(email, '@');
    Split(email, '@')[0]
  }

  /**
   * `get_repo_owner()`, with the result of each probe as an input: the first
   * `gh` probe that answers wins; failing that a github.com remote URL names
   * the owner; failing that the local part of the e-mail address does; and
   * when none applies the detection fails.
   */
  method DetectOwner(ghProbes: seq<Probe>, remote: Probe, email: Probe) returns (r: Result<string, OwnerError>)
    requires |ghProbes| == |GhAttempts|
    ensures forall k :: 0 <= k < |ghProbes| && GhAnswers(ghProbes[k]) && NoneAnswersBefore(ghProbes, k) ==>
      r == Success(Strip(ghProbes[k].output))
    ensures NoneAnswersBefore(ghProbes, |ghProbes|) && RemoteApplies(remote) ==>
      r == OwnerFromRemote(remote.output)
    ensures NoneAnswersBefore(ghProbes, |ghProbes|) && !RemoteApplies(remote) && EmailApplies(email) ==>
      r == Success(EmailLocalPart(email.output))
    ensures NoneAnswersBefore(ghProbes, |ghProbes|) && !RemoteApplies(remote) && !EmailApplies(email) ==>
      r == Failure(OwnerNotDetected)
  {
    for k := 0 to |ghProbes|
      invariant NoneAnswersBefore(ghProbes, k)
    {
      var probe := ghProbes[k];
      if probe.success && Strip(probe.output) != [] {
        return Success(Strip(probe.output));
      }
    }

    if remote.success && remote.output != [] {
      if Contains(remote.output, "github.com") {
        return OwnerFromRemote(remote.output);
      }
    }

    if email.success && email.output != [] && '@' in email.output {
      return Success(EmailLocalPart(email.output));
    }

    return Failure(OwnerNotDetected);
  }
}
