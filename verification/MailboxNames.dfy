/** The names the mail store goes by: which directories are FATMAMA's own, which are protected, which addresses a site takes,
    and which two addresses share a mailbox directory. */
module MailboxNames {
  import opened Text
  import opened MailStore

  // ---------------------------------------------------------------- whose directory it is

  /** `<anywhere>/fatmama-mailbox-<slug>/<last>` */
  ghost predicate IsOwnMailbox(inbox: Path) {
    exists dir: Path, slug: string, last: string :: inbox == dir + ["fatmama-mailbox-" + slug, last]
  }

  /** A component of the path holds the name of a local validator. */
  ghost predicate NamesValidator(inbox: Path) {
    exists i, front: string, back: string :: 0 <= i < |inbox| && inbox[i] == front + "axiom-first-penguin-" + back
  }

  lemma ContainsIff(s: string, pat: string)
    ensures Contains(s, pat) <==> exists front: string, back: string :: s == front + pat + back
  {
    if Contains(s, pat) {
      var i := Find(s, pat).value;
      SliceApart(s, i, pat);
    }
    if front: string, back: string :| s == front + pat + back {
      assert s[|front|..] == pat + back;
      assert At(s, |front|, pat);
    }
  }

  lemma ManagedIff(inbox: Path)
    ensures IsManaged(inbox) <==> IsOwnMailbox(inbox)
  {
    if IsManaged(inbox) {
      var n := |inbox|;
      var slug := inbox[n - 2][|MAILBOX_PREFIX|..];
      assert inbox[n - 2] == "fatmama-mailbox-" + slug;
      assert inbox == inbox[..n - 2] + ["fatmama-mailbox-" + slug, inbox[n - 1]];
    }
    if dir: Path, slug: string, last: string :| inbox == dir + ["fatmama-mailbox-" + slug, last] {
      assert inbox[|inbox| - 2] == "fatmama-mailbox-" + slug;
    }
  }

  /** A route is protected exactly when its path names a local validator, or FATMAMA did not make the mailbox: so also the route
      of a validator on another box, which bears no such name. */
  lemma ProtectedIff(inbox: Path)
    ensures IsProtected(inbox) <==> NamesValidator(inbox) || !IsOwnMailbox(inbox)
  {
    ManagedIff(inbox);
    if i :| 0 <= i < |inbox| && Contains(inbox[i], VALIDATOR_MARK) {
      ContainsIff(inbox[i], VALIDATOR_MARK);
      var front: string, back: string :| inbox[i] == front + "axiom-first-penguin-" + back;
    }
    if i, front: string, back: string :| 0 <= i < |inbox| && inbox[i] == front + "axiom-first-penguin-" + back {
      ContainsIff(inbox[i], VALIDATOR_MARK);
    }
  }

  // ---------------------------------------------------------------- which addresses a site takes

  /** A site takes an address by what follows its last `@`, in whatever case and with blanks around it, if something stands before. */
  lemma ClusterIff(site: Site, local: string, domain: string)
    requires '@' !in domain
    ensures IsClusterRecipient(site, local + "@" + domain) <==> local != "" && Lower(Strip(domain)) in site.domains
    ensures !IsClusterRecipient(site, domain)
  {
    var addr := local + "@" + domain;
    assert addr[|local|] == '@';
    OneLastCut(addr, '@', local, domain);
    assert LastIndex(addr, '@') == Some(|local|);
    assert addr[|local| + 1..] == domain;
  }

  /** It gives a mailbox to those of them with something before their first `@` and something behind it. */
  lemma RegistrableIff(site: Site, first: string, rest: string)
    requires '@' !in first
    ensures var addr := first + "@" + rest;
            IsRegistrable(site, addr) <==> first != "" && rest != "" && IsClusterRecipient(site, addr)
    ensures !IsRegistrable(site, first)
  {
    var addr := first + "@" + rest;
    OneFirstCut(addr, '@', first, rest);
    assert addr[|first|] == '@';
    assert FirstIndex(addr, '@') == Some(|first|);
  }

  // ---------------------------------------------------------------- the slug of an address

  lemma LetterIff(c: char)
    ensures 'a' <= c <= 'z' <==> c in "abcdefghijklmnopqrstuvwxyz"
  {
    if 'a' <= c <= 'z' {
      var letters, i := "abcdefghijklmnopqrstuvwxyz", (c - 'a') as nat;
      assert letters[i] == c;
    }
  }

  lemma DigitIff(c: char)
    ensures '0' <= c <= '9' <==> c in "0123456789"
  {
    if '0' <= c <= '9' {
      var digits, i := "0123456789", (c - '0') as nat;
      assert digits[i] == c;
    }
  }

  /** What stays in a slug: lower-case letters and digits. */
  lemma SlugCharIff(c: char)
    ensures IsSlugChar(c) <==> c in "abcdefghijklmnopqrstuvwxyz" || c in "0123456789"
  {
    LetterIff(c);
    DigitIff(c);
  }

  /** The length of the run of slug characters at the start. */
  function RunLength(s: string): (n: nat)
    ensures n <= |s| && (forall i :: 0 <= i < n ==> IsSlugChar(s[i])) && (n < |s| ==> !IsSlugChar(s[n]))
  {
    if s == "" || !IsSlugChar(s[0]) then 0 else 1 + RunLength(s[1..])
  }

  /** The maximal runs of lower-case letters and digits, in order. */
  function Words(s: string): seq<string>
    decreases |s|
  {
    if s == "" then []
    else if RunLength(s) == 0 then Words(s[1..])
    else [s[..RunLength(s)]] + Words(s[RunLength(s)..])
  }

  predicate IsWord(w: string) {
    w != "" && forall i :: 0 <= i < |w| ==> IsSlugChar(w[i])
  }

  predicate AreWords(ws: seq<string>) {
    forall i :: 0 <= i < |ws| ==> IsWord(ws[i])
  }

  lemma {:induction false} WordsAreWords(s: string)
    ensures AreWords(Words(s))
    decreases |s|
  {
    if s != "" {
      if RunLength(s) == 0 {
        WordsAreWords(s[1..]);
      } else {
        WordsAreWords(s[RunLength(s)..]);
        assert IsWord(s[..RunLength(s)]);
      }
    }
  }

  lemma FirstOfRun(s: string, n: nat, rest: string)
    requires 0 < n <= |s|
    ensures [s[0]] + (s[1..][..n - 1] + rest) == s[..n] + rest
  {
  }

  lemma {:induction false} RunStays(s: string, n: nat, inRun: bool)
    requires n <= |s| && forall i :: 0 <= i < n ==> IsSlugChar(s[i])
    ensures Dashed(s, inRun) == s[..n] + Dashed(s[n..], if n == 0 then inRun else false)
    decreases n
  {
    if n == 0 {
      assert s[..0] == "" && s[0..] == s;
    } else {
      RunStays(s[1..], n - 1, false);
      assert s[1..][n - 1..] == s[n..];
      FirstOfRun(s, n, Dashed(s[n..], false));
    }
  }

  function Dash(there: bool): string {
    if there then "-" else ""
  }

  /** What replacing the runs of other characters gives: the words joined by dashes, and a dash at each end that has other
      characters. */
  function Dotted(s: string, inRun: bool): string {
    var ws := Words(s);
    if ws == [] then Dash(s != "" && !inRun)
    else Dash(!IsSlugChar(s[0]) && !inRun) + Join(ws, "-") + Dash(!IsSlugChar(s[|s| - 1]))
  }

  lemma {:induction false} DashedIs(s: string, inRun: bool)
    ensures Dashed(s, inRun) == Dotted(s, inRun)
    decreases |s|
  {
    if s != "" {
      var n := RunLength(s);
      if n == 0 {
        DashedIs(s[1..], true);
        assert s[|s| - 1] == if |s| == 1 then s[0] else s[1..][|s| - 2];
        DashFirst(s, inRun);
      } else {
        RunStays(s, n, inRun);
        DashedIs(s[n..], false);
        WordFirst(s, n, inRun);
      }
    }
  }

  lemma DashRegroup(dash: string, joined: string, end: string)
    ensures dash + ("" + joined + end) == dash + joined + end
    ensures dash + "" == dash
  {
  }

  lemma DashFirst(s: string, inRun: bool)
    requires s != "" && !IsSlugChar(s[0])
    ensures Dash(!inRun) + Dotted(s[1..], true) == Dotted(s, inRun)
  {
    var ws, t := Words(s), s[1..];
    assert ws == Words(t);
    if ws != [] {
      assert t[|t| - 1] == s[|s| - 1];
      DashRegroup(Dash(!inRun), Join(ws, "-"), Dash(!IsSlugChar(s[|s| - 1])));
    } else {
      DashRegroup(Dash(!inRun), "", "");
    }
  }

  lemma WordRegroup(w: string, joined: string, end: string)
    ensures w + ("-" + joined + end) == "" + (w + "-" + joined) + end
    ensures "" + w + "" == w && "" + w + "-" == w + "-" && w + "" == w
  {
  }

  lemma OneWord(w: string)
    ensures Join([w], "-") == w
  {
  }

  lemma WordFirst(s: string, n: nat, inRun: bool)
    requires n == RunLength(s) > 0
    ensures s[..n] + Dotted(s[n..], false) == Dotted(s, inRun)
  {
    var w, t := s[..n], s[n..];
    assert Words(s) == [w] + Words(t);
    WordRegroup(w, "", "");
    OneWord(w);
    if t == "" {
      assert IsSlugChar(s[|s| - 1]);
    } else {
      assert s[|s| - 1] == t[|t| - 1];
      if Words(t) == [] {
        NoWords(t);
      } else {
        WordBeforeWords(s, w, t, inRun);
      }
    }
  }

  lemma WordBeforeWords(s: string, w: string, t: string, inRun: bool)
    requires s != "" && t != "" && Words(t) != [] && Words(s) == [w] + Words(t)
    requires IsSlugChar(s[0]) && !IsSlugChar(t[0]) && s[|s| - 1] == t[|t| - 1]
    ensures w + Dotted(t, false) == Dotted(s, inRun)
  {
    JoinCons(w, Words(t), "-");
    WordRegroup(w, Join(Words(t), "-"), Dash(!IsSlugChar(t[|t| - 1])));
  }

  lemma {:induction false} NoWords(s: string)
    requires Words(s) == []
    ensures forall i :: 0 <= i < |s| ==> !IsSlugChar(s[i])
    decreases |s|
  {
    if s != "" {
      NoWords(s[1..]);
      assert forall i :: 0 < i < |s| ==> s[i] == s[1..][i - 1];
    }
  }

  lemma {:induction false} JoinedEnds(ws: seq<string>)
    requires ws != [] && AreWords(ws)
    ensures var s := Join(ws, "-"); s != "" && s[0] != '-' && s[|s| - 1] != '-'
    decreases |ws|
  {
    assert IsWord(ws[0]);
    if |ws| == 1 {
      assert Join(ws, "-") == ws[0];
    } else {
      assert ws == [ws[0]] + ws[1..];
      JoinedEnds(ws[1..]);
      JoinCons(ws[0], ws[1..], "-");
    }
  }

  lemma StripsLast(s: string)
    requires s != "" && s[0] != '-' && s[|s| - 1] != '-'
    ensures StripDashes(s) == s && StripDashes(s + "-") == s
  {
    var more := s + "-";
    assert more[0] == s[0] && more[|more| - 1] == '-' && more[..|more| - 1] == s;
  }

  lemma StripsFirst(s: string)
    ensures StripDashes("-" + s) == StripDashes(s)
  {
    assert ("-" + s)[1..] == s;
  }

  lemma StripsDashes(s: string, before: bool, after: bool)
    requires s != "" && s[0] != '-' && s[|s| - 1] != '-'
    ensures StripDashes(Dash(before) + s + Dash(after)) == s
  {
    var whole := s + Dash(after);
    Assoc(Dash(before), s, Dash(after));
    assert StripDashes(whole) == s by {
      StripsLast(s);
      DashRegroup(s, "", "");
    }
    if before {
      StripsFirst(whole);
    } else {
      assert "" + whole == whole;
    }
  }

  /** The slug of an address is its runs of lower-case letters and digits joined by dashes, or `anon` when it has none. */
  lemma SlugIs(addr: string)
    ensures Slug(addr) == if Words(addr) == [] then "anon" else Join(Words(addr), "-")
  {
    DashedIs(addr, false);
    WordsAreWords(addr);
    if Words(addr) != [] {
      JoinedEnds(Words(addr));
      StripsDashes(Join(Words(addr), "-"), !IsSlugChar(addr[0]), !IsSlugChar(addr[|addr| - 1]));
    }
  }

  lemma WordHasNoDash(w: string)
    requires IsWord(w)
    ensures '-' !in w
  {
  }

  /** Joined words tell the words. */
  lemma {:induction false} JoinTells(ws: seq<string>, vs: seq<string>)
    requires ws != [] && vs != [] && AreWords(ws) && AreWords(vs) && Join(ws, "-") == Join(vs, "-")
    ensures ws == vs
    decreases |ws|
  {
    var s := Join(ws, "-");
    JoinCut(ws);
    JoinCut(vs);
    assert ws == [ws[0]] + ws[1..] && vs == [vs[0]] + vs[1..];
    if |ws| > 1 {
      JoinTells(ws[1..], vs[1..]);
    }
  }

  lemma NoneToCut(s: string, c: char)
    ensures CutFirst(s, c).Some? ==> c in s
  {
    if CutFirst(s, c).Some? {
      assert s[|CutFirst(s, c).value.0|] == c;
    }
  }

  lemma JoinCut(ws: seq<string>)
    requires ws != [] && AreWords(ws)
    ensures CutFirst(Join(ws, "-"), '-') == if |ws| == 1 then None else Some((ws[0], Join(ws[1..], "-")))
    ensures |ws| == 1 ==> Join(ws, "-") == ws[0]
  {
    assert IsWord(ws[0]);
    WordHasNoDash(ws[0]);
    if |ws| == 1 {
      assert Join(ws, "-") == ws[0];
      NoneToCut(ws[0], '-');
    } else {
      assert ws == [ws[0]] + ws[1..];
      JoinCons(ws[0], ws[1..], "-");
      OneFirstCut(Join(ws, "-"), '-', ws[0], Join(ws[1..], "-"));
    }
  }

  /** Two addresses share a mailbox directory exactly when they have the same runs of letters and digits, or one has none and the
      other is `anon`. */
  lemma SameSlugIff(a: string, b: string)
    ensures Slug(a) == Slug(b) <==>
            Words(a) == Words(b) || (Words(a) == [] && Words(b) == ["anon"]) || (Words(a) == ["anon"] && Words(b) == [])
  {
    SlugIs(a);
    SlugIs(b);
    WordsAreWords(a);
    WordsAreWords(b);
    assert Join(["anon"], "-") == "anon" && AreWords(["anon"]);
    var ws, vs := if Words(a) == [] then ["anon"] else Words(a), if Words(b) == [] then ["anon"] else Words(b);
    if Slug(a) == Slug(b) {
      JoinTells(ws, vs);
    }
  }
}
