/**
  The prompt sent to the completion server (main.py:258-278): a user section built
  from the repository name, its description, the review rules and the diff, wrapped
  with the system prompt between three fixed markers. Nothing inserted is escaped.
  Values that may be `None` (a missing environment variable, a failed fetch) appear
  as "None", as an f-string renders them.
 */
module Prompt {
  import opened Wrappers
  import opened Text

  const SystemHeader := "### System Prompt\n"
  const UserHeader := "\n\n### User Message\n"
  const AssistantFooter := "\n\n### Assistant\n"

  /** The f-string `user_prompt`. */
  function UserPrompt(repo: Option<string>, repoDesc: Option<string>, rules: string, diff: Option<string>): string
  {
    "\n--- " + Str(repo) + " ---\n" + Str(repoDesc) + "\n\nRules: " + rules + "\n\nDiff:\n" + Str(diff) + "\n"
  }

  /** The f-string `full_prompt`. */
  function FullPrompt(systemPrompt: string, userPrompt: string): string
  {
    SystemHeader + systemPrompt + UserHeader + userPrompt + AssistantFooter
  }

  /**
    The full prompt is, in this order and with nothing else: the system marker, the
    system prompt, the user marker, the user section and the assistant marker.
   */
  lemma FullPromptLayout(systemPrompt: string, userPrompt: string)
    ensures var p := FullPrompt(systemPrompt, userPrompt);
      var s := |SystemHeader|;
      var u := s + |systemPrompt| + |UserHeader|;
      && |p| == u + |userPrompt| + |AssistantFooter|
      && p[..s] == SystemHeader
      && p[s..s + |systemPrompt|] == systemPrompt
      && p[s + |systemPrompt|..u] == UserHeader
      && p[u..u + |userPrompt|] == userPrompt
      && p[u + |userPrompt|..] == AssistantFooter
  {
    var p := FullPrompt(systemPrompt, userPrompt);
    var s := |SystemHeader|;
    var u := s + |systemPrompt| + |UserHeader|;
    assert p == (SystemHeader + systemPrompt + UserHeader + userPrompt) + AssistantFooter;
    assert p[..u + |userPrompt|] == SystemHeader + systemPrompt + UserHeader + userPrompt;
  }

  /** With the system prompt fixed, different user sections give different prompts. */
  lemma FullPromptDeterminesUserSection(systemPrompt: string, u1: string, u2: string)
    requires FullPrompt(systemPrompt, u1) == FullPrompt(systemPrompt, u2)
    ensures u1 == u2
  {
    FullPromptLayout(systemPrompt, u1);
    FullPromptLayout(systemPrompt, u2);
  }

  /**
    The user section is its five fixed labels with the repository name, its
    description, the rules and the diff between them, verbatim and in this order.
   */
  lemma UserPromptLayout(repo: Option<string>, repoDesc: Option<string>, rules: string, diff: Option<string>)
    ensures var p := UserPrompt(repo, repoDesc, rules, diff);
      var a := |"\n--- "|;
      var b := a + |Str(repo)| + |" ---\n"|;
      var c := b + |Str(repoDesc)| + |"\n\nRules: "|;
      var d := c + |rules| + |"\n\nDiff:\n"|;
      && |p| == d + |Str(diff)| + 1
      && p[..a] == "\n--- "
      && p[a..a + |Str(repo)|] == Str(repo)
      && p[a + |Str(repo)|..b] == " ---\n"
      && p[b..b + |Str(repoDesc)|] == Str(repoDesc)
      && p[b + |Str(repoDesc)|..c] == "\n\nRules: "
      && p[c..c + |rules|] == rules
      && p[c + |rules|..d] == "\n\nDiff:\n"
      && p[d..d + |Str(diff)|] == Str(diff)
      && p[d + |Str(diff)|..] == "\n"
  {
    Interleaved("\n--- ", Str(repo), " ---\n", Str(repoDesc), "\n\nRules: ", rules, "\n\nDiff:\n", Str(diff), "\n");
    InterleavedLabels("\n--- ", Str(repo), " ---\n", Str(repoDesc), "\n\nRules: ", rules, "\n\nDiff:\n", Str(diff), "\n");
  }

  /** Where each value sits in a text of fixed labels and values, taken alternately. */
  lemma Interleaved(l0: string, v0: string, l1: string, v1: string, l2: string, v2: string,
                    l3: string, v3: string, l4: string)
    ensures var p := l0 + v0 + l1 + v1 + l2 + v2 + l3 + v3 + l4;
      var a := |l0|;
      var b := a + |v0| + |l1|;
      var c := b + |v1| + |l2|;
      var d := c + |v2| + |l3|;
      && |p| == d + |v3| + |l4|
      && p[a..a + |v0|] == v0
      && p[b..b + |v1|] == v1
      && p[c..c + |v2|] == v2
      && p[d..d + |v3|] == v3
  {
    var x1 := l0 + v0;
    var x2 := x1 + l1;
    var x3 := x2 + v1;
    var x4 := x3 + l2;
    var x5 := x4 + v2;
    var x6 := x5 + l3;
    var x7 := x6 + v3;
    var p := x7 + l4;
    PrefixStep(x7, l4, p);
    PrefixStep(x6, v3, p);
    PrefixStep(x5, l3, p);
    PrefixStep(x4, v2, p);
    PrefixStep(x3, l2, p);
    PrefixStep(x2, v1, p);
    PrefixStep(x1, l1, p);
    PieceOf(x1, l0, p);
    PieceOf(x3, x2, p);
    PieceOf(x5, x4, p);
    PieceOf(x7, x6, p);
  }

  /** Where each label sits in a text of fixed labels and values, taken alternately. */
  lemma InterleavedLabels(l0: string, v0: string, l1: string, v1: string, l2: string, v2: string,
                          l3: string, v3: string, l4: string)
    ensures var p := l0 + v0 + l1 + v1 + l2 + v2 + l3 + v3 + l4;
      var a := |l0|;
      var b := a + |v0| + |l1|;
      var c := b + |v1| + |l2|;
      var d := c + |v2| + |l3|;
      && p[..a] == l0
      && p[a + |v0|..b] == l1
      && p[b + |v1|..c] == l2
      && p[c + |v2|..d] == l3
      && p[d + |v3|..] == l4
  {
    var x1 := l0 + v0;
    var x2 := x1 + l1;
    var x3 := x2 + v1;
    var x4 := x3 + l2;
    var x5 := x4 + v2;
    var x6 := x5 + l3;
    var x7 := x6 + v3;
    var p := x7 + l4;
    PrefixStep(x7, l4, p);
    PrefixStep(x6, v3, p);
    PrefixStep(x5, l3, p);
    PrefixStep(x4, v2, p);
    PrefixStep(x3, l2, p);
    PrefixStep(x2, v1, p);
    PrefixStep(x1, l1, p);
    PrefixStep(l0, v0, p);
    PieceOf(l0, [], p);
    PieceOf(x2, x1, p);
    PieceOf(x4, x3, p);
    PieceOf(x6, x5, p);
    assert p[|x7|..] == l4;
  }

  /** A prefix of a prefix of `p` is a prefix of `p`. */
  lemma PrefixStep(x: string, y: string, p: string)
    requires x + y <= p
    ensures x <= p
  {
    assert p[..|x|] == (x + y)[..|x|];
  }

  /** The part of a prefix `whole` of `p` after its own prefix `pre` sits in `p` at the same offsets. */
  lemma PieceOf(whole: string, pre: string, p: string)
    requires pre <= whole <= p
    ensures p[|pre|..|whole|] == whole[|pre|..]
  {
  }

  /**
    No escaping: every occurrence of a text in the user section (a diff quoting
    "### Assistant", say) is an occurrence in the full prompt, so a marker copied in
    by the diff sits before the real one.
   */
  lemma {:induction false} UserTextIsNotEscaped(systemPrompt: string, userPrompt: string, t: string, k: nat)
    requires OccursAt(userPrompt, t, k)
    ensures OccursAt(FullPrompt(systemPrompt, userPrompt), t, |SystemHeader| + |systemPrompt| + |UserHeader| + k)
  {
    FullPromptLayout(systemPrompt, userPrompt);
    var u := |SystemHeader| + |systemPrompt| + |UserHeader|;
    var p := FullPrompt(systemPrompt, userPrompt);
    assert p[u + k..u + k + |t|] == p[u..u + |userPrompt|][k..k + |t|];
  }

  /** A diff that contains the assistant marker puts that marker into the prompt twice. */
  lemma {:induction false} DiffCanForgeAssistantMarker(systemPrompt: string, repo: Option<string>, repoDesc: Option<string>,
                                     rules: string, diff: string, k: nat)
    requires OccursAt(diff, AssistantFooter, k)
    ensures var p := FullPrompt(systemPrompt, UserPrompt(repo, repoDesc, rules, Some(diff)));
      exists i: nat, j: nat :: i < j && OccursAt(p, AssistantFooter, i) && OccursAt(p, AssistantFooter, j)
  {
    var user := UserPrompt(repo, repoDesc, rules, Some(diff));
    var p := FullPrompt(systemPrompt, user);
    Interleaved("\n--- ", Str(repo), " ---\n", Str(repoDesc), "\n\nRules: ", rules, "\n\nDiff:\n", diff, "\n");
    var d := |user| - |diff| - 1;
    assert user[d + k..d + k + |AssistantFooter|] == user[d..d + |diff|][k..k + |AssistantFooter|];
    assert OccursAt(user, AssistantFooter, d + k);
    UserTextIsNotEscaped(systemPrompt, user, AssistantFooter, d + k);
    FullPromptLayout(systemPrompt, user);
    var i := |SystemHeader| + |systemPrompt| + |UserHeader| + d + k;
    var j := |p| - |AssistantFooter|;
    assert OccursAt(p, AssistantFooter, j);
    assert i < j;
  }
}
