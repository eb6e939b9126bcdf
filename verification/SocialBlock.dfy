/** The row of social-profile links (src/components/base/socialBlock.js): a
    fixed table of five candidates built from the user record, rendered in
    table order with the entries whose field is falsy dropped. Icons, the
    click analytics and the link target attributes are not modelled. */
module SocialBlock {
  import opened Wrappers

  /** The user record's profile fields; `None` is an absent field. */
  datatype User = User(
    gitHub: Option<string>,
    twitter: Option<string>,
    linkedIn: Option<string>,
    upwork: Option<string>,
    email: Option<string>)

  /** One row of the `socialLinks` table: the field that decides whether it
      shows, the target, the image's alternative text and the label. */
  datatype Entry = Entry(condition: Option<string>, url: string, alt: string, labelText: string)

  /** One rendered anchor: its React key (the table index), `href`,
      `aria-label`, tooltip text, and the image's `alt`. */
  datatype Link = Link(key: nat, href: string, ariaLabel: string, tooltip: string, alt: string)

  /** JavaScript truthiness of a string field. */
  predicate Truthy(v: Option<string>) {
    v.Some? && v.value != ""
  }

  /** A field interpolated into a template literal. */
  function Interpolate(v: Option<string>): (r: string)
    ensures v.Some? ==> r == v.value
    ensures v.None? ==> r == "undefined"
  {
    match v
    case Some(s) => s
    case None => "undefined"
  }

  const Labels: seq<string> := ["GitHub", "Twitter", "LinkedIn", "Upwork", "Email"]
  const Alts: seq<string> := ["Github Profile", "Twitter Profile", "LinkedIn Profile", "Upwork Profile", "Email Me"]
  const UrlPrefixes: seq<string> :=
    ["https://github.com/", "https://twitter.com/", "https://www.linkedin.com/",
     "https://www.upwork.com/freelancers/", "mailto:"]

  /** The five fields in table order. */
  function Fields(u: User): seq<Option<string>> {
    [u.gitHub, u.twitter, u.linkedIn, u.upwork, u.email]
  }

  /** `socialLinks`: row `k` tests field `k` and links to prefix `k` followed
      by that field. */
  function SocialLinks(u: User): (r: seq<Entry>)
    ensures |r| == 5
    ensures forall k :: 0 <= k < 5 ==>
      r[k] == Entry(Fields(u)[k], UrlPrefixes[k] + Interpolate(Fields(u)[k]), Alts[k], Labels[k])
  {
    [Entry(u.gitHub, "https://github.com/" + Interpolate(u.gitHub), "Github Profile", "GitHub"),
     Entry(u.twitter, "https://twitter.com/" + Interpolate(u.twitter), "Twitter Profile", "Twitter"),
     Entry(u.linkedIn, "https://www.linkedin.com/" + Interpolate(u.linkedIn), "LinkedIn Profile", "LinkedIn"),
     Entry(u.upwork, "https://www.upwork.com/freelancers/" + Interpolate(u.upwork), "Upwork Profile", "Upwork"),
     Entry(u.email, "mailto:" + Interpolate(u.email), "Email Me", "Email")]
  }

  /** The anchor rendered for a table row with index `key`. */
  function LinkOf(e: Entry, key: nat): (l: Link)
    ensures l.key == key && l.href == e.url
    ensures l.ariaLabel == e.labelText && l.tooltip == e.labelText && l.alt == e.alt
  {
    Link(key, e.url, e.labelText, e.labelText, e.alt)
  }

  /** `entries.map((e, index) => truthy ? <a key={index}…> : null)` with the
      nulls dropped, from row `k` on. */
  function RenderFrom(entries: seq<Entry>, k: nat): (r: seq<Link>)
    requires k <= |entries|
    ensures |r| <= |entries| - k
    ensures forall i :: 0 <= i < |r| ==>
      k <= r[i].key < |entries|
      && Truthy(entries[r[i].key].condition)
      && r[i] == LinkOf(entries[r[i].key], r[i].key)
    decreases |entries| - k
  {
    if k == |entries| then []
    else
      var rest := RenderFrom(entries, k + 1);
      if Truthy(entries[k].condition) then [LinkOf(entries[k], k)] + rest else rest
  }

  /** Keys strictly increase along the links. */
  predicate Ordered(links: seq<Link>) {
    forall i, j :: 0 <= i < j < |links| ==> links[i].key < links[j].key
  }

  /** The links come out in table order. */
  lemma {:induction false} RenderFromOrdered(entries: seq<Entry>, k: nat)
    requires k <= |entries|
    ensures Ordered(RenderFrom(entries, k))
    decreases |entries| - k
  {
    if k < |entries| {
      RenderFromOrdered(entries, k + 1);
      var r := RenderFrom(entries, k);
      var rest := RenderFrom(entries, k + 1);
      if Truthy(entries[k].condition) {
        assert forall i :: 0 < i < |r| ==> r[i] == rest[i - 1];
      }
    }
  }

  /** Every row with a truthy field is rendered. */
  lemma {:induction false} RenderFromComplete(entries: seq<Entry>, k: nat, m: nat)
    requires k <= m < |entries| && Truthy(entries[m].condition)
    ensures exists i :: 0 <= i < |RenderFrom(entries, k)| && RenderFrom(entries, k)[i].key == m
    decreases |entries| - k
  {
    var r := RenderFrom(entries, k);
    if m == k {
      assert r[0].key == m;
    } else {
      RenderFromComplete(entries, k + 1, m);
      var rest := RenderFrom(entries, k + 1);
      var i :| 0 <= i < |rest| && rest[i].key == m;
      if Truthy(entries[k].condition) {
        assert r[i + 1] == rest[i];
      } else {
        assert r[i] == rest[i];
      }
    }
  }

  /** The rendered block for a user. */
  function Render(u: User): (r: seq<Link>)
    ensures |r| <= 5
    ensures Ordered(r)
    ensures forall i :: 0 <= i < |r| ==>
      r[i].key < 5 && Truthy(Fields(u)[r[i].key])
      && r[i].href == UrlPrefixes[r[i].key] + Fields(u)[r[i].key].value
      && r[i].ariaLabel == Labels[r[i].key] && r[i].alt == Alts[r[i].key]
    ensures forall k :: 0 <= k < 5 && Truthy(Fields(u)[k]) ==> exists i :: 0 <= i < |r| && r[i].key == k
  {
    var e := SocialLinks(u);
    RenderFromOrdered(e, 0);
    forall k | 0 <= k < 5 && Truthy(Fields(u)[k])
      ensures exists i :: 0 <= i < |RenderFrom(e, 0)| && RenderFrom(e, 0)[i].key == k
    {
      RenderFromComplete(e, 0, k);
    }
    RenderFrom(e, 0)
  }

  /** A label appears in the block exactly when its field is truthy. */
  lemma LabelShownIffTruthy(u: User, k: nat)
    requires k < 5
    ensures (exists i :: 0 <= i < |Render(u)| && Render(u)[i].ariaLabel == Labels[k]) <==> Truthy(Fields(u)[k])
  {
    var r := Render(u);
    if exists i :: 0 <= i < |r| && r[i].ariaLabel == Labels[k] {
      var i :| 0 <= i < |r| && r[i].ariaLabel == Labels[k];
      LabelsDistinct(r[i].key, k);
    }
  }

  lemma LabelsDistinct(a: nat, b: nat)
    requires a < 5 && b < 5 && Labels[a] == Labels[b]
    ensures a == b
  {
  }

  /** The shipped user record: no Twitter handle. */
  const ShippedUser: User := User(
    Some("arnoldadero"),
    None,
    Some("in/arnold-adero-49607955"),
    Some("arnoldadero"),
    Some("arnold@mvuvi.co.ke"))

  /** A user with every field but Twitter gets GitHub, LinkedIn, Upwork and
      Email, in that order. */
  lemma BlockWithoutTwitter(u: User)
    requires Truthy(u.gitHub) && !Truthy(u.twitter) && Truthy(u.linkedIn)
    requires Truthy(u.upwork) && Truthy(u.email)
    ensures var r := Render(u);
      && |r| == 4
      && r[0].ariaLabel == "GitHub" && r[1].ariaLabel == "LinkedIn"
      && r[2].ariaLabel == "Upwork" && r[3].ariaLabel == "Email"
      && r[0].href == "https://github.com/" + u.gitHub.value
      && r[3].href == "mailto:" + u.email.value
  {
    var e := SocialLinks(u);
    RenderAllButSecond(e);
    assert Render(u) == [LinkOf(e[0], 0), LinkOf(e[2], 2), LinkOf(e[3], 3), LinkOf(e[4], 4)];
  }

  /** Five rows of which only the second is falsy render as rows 0, 2, 3, 4. */
  lemma RenderAllButSecond(e: seq<Entry>)
    requires |e| == 5 && !Truthy(e[1].condition)
    requires Truthy(e[0].condition) && Truthy(e[2].condition) && Truthy(e[3].condition) && Truthy(e[4].condition)
    ensures RenderFrom(e, 0) == [LinkOf(e[0], 0), LinkOf(e[2], 2), LinkOf(e[3], 3), LinkOf(e[4], 4)]
  {
    var l0, l2, l3, l4 := LinkOf(e[0], 0), LinkOf(e[2], 2), LinkOf(e[3], 3), LinkOf(e[4], 4);
    assert RenderFrom(e, 5) == [];
    RenderStep(e, 4);
    assert RenderFrom(e, 4) == [l4];
    RenderStep(e, 3);
    assert RenderFrom(e, 3) == [l3, l4];
    RenderStep(e, 2);
    assert RenderFrom(e, 2) == [l2, l3, l4];
    RenderStep(e, 1);
    assert RenderFrom(e, 1) == [l2, l3, l4];
    RenderStep(e, 0);
  }

  /** The shipped record has no Twitter handle, so its block is GitHub,
      LinkedIn, Upwork and Email. */
  lemma ShippedBlock()
    ensures var r := Render(ShippedUser);
      && |r| == 4
      && r[0].ariaLabel == "GitHub" && r[1].ariaLabel == "LinkedIn"
      && r[2].ariaLabel == "Upwork" && r[3].ariaLabel == "Email"
  {
    ShippedFields();
    BlockWithoutTwitter(ShippedUser);
  }

  lemma ShippedFields()
    ensures Truthy(ShippedUser.gitHub) && !Truthy(ShippedUser.twitter) && Truthy(ShippedUser.linkedIn)
    ensures Truthy(ShippedUser.upwork) && Truthy(ShippedUser.email)
  {
  }

  lemma RenderStep(entries: seq<Entry>, k: nat)
    requires k < |entries|
    ensures RenderFrom(entries, k) ==
      (if Truthy(entries[k].condition) then [LinkOf(entries[k], k)] else []) + RenderFrom(entries, k + 1)
  {
  }
}
