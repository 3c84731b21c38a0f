/**
 * The public contact endpoint of the Slack Connect bot: a visitor's request
 * must name at least one way to reach them; the bot then creates a private
 * channel whose name is derived from the company and the UTC date, and
 * reports the outcome as a JSON reply with an HTTP status.
 */
module Contact {
  import opened Common
  import opened Strings
  import opened Time

  // ---------------------------------------------------------------------------
  // Requests and replies
  // ---------------------------------------------------------------------------

  /** `ContactRequest`; an absent or `null` field is `None`. */
  datatype ContactRequest = ContactRequest(
    company: Option<string>, name: Option<string>, email: Option<string>,
    message: Option<string>, kind: Option<string>)

  /** A string field a JavaScript condition treats as true: present and non-empty. */
  predicate Truthy(f: Option<string>) {
    f.Some? && f.value != ""
  }

  /** The request names the visitor's e-mail, company or name. */
  predicate Reachable(body: ContactRequest) {
    Truthy(body.email) || Truthy(body.company) || Truthy(body.name)
  }

  /** The JSON reply: `success`, then `error` or `message`, and the created channel's name. */
  datatype Reply = Reply(status: nat, success: bool, text: string, channelName: Option<string>)

  const NeedsContact := "少なくとも1つの連絡先情報が必要です"
  const ConfigError := "サーバー設定エラー"
  const CreateFailed := "チャンネルの作成に失敗しました"
  const Unexpected := "予期しないエラーが発生しました"
  const Created := "チャンネルを作成しました。Slackをご確認ください。"

  // ---------------------------------------------------------------------------
  // Channel name
  // ---------------------------------------------------------------------------

  /** `[a-zA-Z0-9ぁ-んァ-ン一-龥]`: ASCII letters and digits, hiragana, katakana and the unified kanji block. */
  predicate IsCompanyChar(c: char) {
    IsAlnum(c) || ('ぁ' <= c <= 'ん') || ('ァ' <= c <= 'ン') || ('一' <= c <= '龥')
  }

  /** `[\w\-]`. */
  predicate IsSlackChar(c: char) {
    IsWordChar(c) || c == '-'
  }

  /** `toISOString().split('T')[0].replace(/-/g, '')`: the UTC date as `YYYYMMDD`. */
  function DateStamp(t: DateTime): (r: string)
    requires Valid(t)
    ensures r == FixedDigits(t.year, 4) + FixedDigits(t.month, 2) + FixedDigits(t.day, 2)
  {
    DateStampDigits(t);
    ReplaceAll(Split(IsoString(t), 'T')[0], "-", "")
  }

  lemma DateStampDigits(t: DateTime)
    requires Valid(t)
    ensures ReplaceAll(Split(IsoString(t), 'T')[0], "-", "")
         == FixedDigits(t.year, 4) + FixedDigits(t.month, 2) + FixedDigits(t.day, 2)
  {
    IsoDatePart(t);
    DropDateDashes(FixedDigits(t.year, 4), FixedDigits(t.month, 2), FixedDigits(t.day, 2));
  }

  /** Removing the dashes from a dashed date of digit runs joins the runs. */
  lemma DropDateDashes(d4: string, dm: string, dd: string)
    requires AllDigits(d4) && AllDigits(dm) && AllDigits(dd)
    ensures ReplaceAll(d4 + (['-'] + (dm + (['-'] + dd))), "-", "") == d4 + dm + dd
  {
    DropDashesAfterDigits(d4, ['-'] + (dm + (['-'] + dd)));
    DropLeadingDash(dm + (['-'] + dd));
    DropDashesAfterDigits(dm, ['-'] + dd);
    DropLeadingDash(dd);
    DropDashesAfterDigits(dd, []);
    assert dd + [] == dd;
  }

  /** The text before the `T` of an ISO string is the dashed date. */
  lemma IsoDatePart(t: DateTime)
    requires Valid(t)
    ensures Split(IsoString(t), 'T')[0]
         == FixedDigits(t.year, 4) + (['-'] + (FixedDigits(t.month, 2) + (['-'] + FixedDigits(t.day, 2))))
  {
    var d4, dm, dd := FixedDigits(t.year, 4), FixedDigits(t.month, 2), FixedDigits(t.day, 2);
    var rest := IsoDateFirst(t);
    Regroup(d4, dm, dd, rest);
    DateHasNoT(d4, dm, dd);
    SplitAfterPiece(d4 + (['-'] + (dm + (['-'] + dd))), 'T', rest);
  }

  lemma Regroup(a: string, b: string, c: string, rest: string)
    ensures a + ['-'] + (b + ['-'] + (c + ['T'] + rest)) == a + (['-'] + (b + (['-'] + c))) + ['T'] + rest
  {
  }

  lemma DateHasNoT(a: string, b: string, c: string)
    requires AllDigits(a) && AllDigits(b) && AllDigits(c)
    ensures !HasChar(a + (['-'] + (b + (['-'] + c))), 'T')
  {
    var date := a + (['-'] + (b + (['-'] + c)));
    forall i | 0 <= i < |date| ensures date[i] != 'T' {
      assert IsDigit(date[i]) || date[i] == '-';
    }
  }

  /** An ISO string opens with the year, month and day, each closed by its separator. */
  lemma IsoDateFirst(t: DateTime) returns (rest: string)
    requires Valid(t)
    ensures IsoString(t)
         == FixedDigits(t.year, 4) + ['-'] + (FixedDigits(t.month, 2) + ['-'] + (FixedDigits(t.day, 2) + ['T'] + rest))
  {
    var vs := Fields(t);
    rest := Render(vs[3..], IsoShape[3..]);
    RenderHead(vs, IsoShape);
    RenderHead(vs[1..], IsoShape[1..]);
    RenderHead(vs[2..], IsoShape[2..]);
    assert vs[1..][1..] == vs[2..] && IsoShape[1..][1..] == IsoShape[2..];
    assert vs[2..][1..] == vs[3..] && IsoShape[2..][1..] == IsoShape[3..];
  }

  /** Dropping dashes leaves a leading run of digits in place. */
  lemma {:induction false} DropDashesAfterDigits(d: string, rest: string)
    requires AllDigits(d)
    ensures ReplaceAll(d + rest, "-", "") == d + ReplaceAll(rest, "-", "")
    decreases |d|
  {
    if |d| > 0 {
      assert (d + rest)[0] == d[0] && d[0] != '-';
      assert !IsPrefix("-", d + rest);
      assert (d + rest)[1..] == d[1..] + rest;
      DropDashesAfterDigits(d[1..], rest);
      assert [d[0]] + d[1..] == d;
    } else {
      assert d + rest == rest;
    }
  }

  lemma DropLeadingDash(rest: string)
    ensures ReplaceAll(['-'] + rest, "-", "") == ReplaceAll(rest, "-", "")
  {
    assert IsPrefix("-", ['-'] + rest);
    assert (['-'] + rest)[1..] == rest;
  }

  /** The stamp is eight digits. */
  lemma DateStampShape(t: DateTime)
    requires Valid(t)
    ensures |DateStamp(t)| == 8 && AllDigits(DateStamp(t))
  {
    var r := DateStamp(t);
    var d4, d2m, d2d := FixedDigits(t.year, 4), FixedDigits(t.month, 2), FixedDigits(t.day, 2);
    forall i | 0 <= i < 8 ensures IsDigit(r[i]) {
      if i < 4 { assert r[i] == d4[i]; }
      else if i < 6 { assert r[i] == d2m[i - 4]; }
      else { assert r[i] == d2d[i - 6]; }
    }
  }

  /** `body.company ? body.company.replace(/[^…]/g, '').slice(0, 20) : 'guest'`. */
  function CompanyPart(company: Option<string>): (r: string)
    ensures !Truthy(company) ==> r == "guest"
    ensures Truthy(company) ==> IsPrefix(r, Keep(company.value, IsCompanyChar))
    ensures Truthy(company) && |Keep(company.value, IsCompanyChar)| <= 20 ==> r == Keep(company.value, IsCompanyChar)
    ensures Truthy(company) ==>
      |r| == if |Keep(company.value, IsCompanyChar)| < 20 then |Keep(company.value, IsCompanyChar)| else 20
    ensures |r| <= 20
    ensures forall i :: 0 <= i < |r| ==> IsCompanyChar(r[i])
  {
    if Truthy(company) then Take(Keep(company.value, IsCompanyChar), 20) else "guest"
  }

  /**
   * The channel name for a request made at `t`: `connect-`, the company
   * part and the date, lower-cased, stripped of everything Slack does not
   * allow, and cut to 80 characters.
   */
  function ChannelName(company: Option<string>, t: DateTime): (r: string)
    requires Valid(t)
  {
    Take(Keep(Lower("connect-" + CompanyPart(company) + "-" + DateStamp(t)), IsSlackChar), 80)
  }

  /** `-`, digits and lower-case ASCII letters: the characters of a channel name. */
  predicate IsChannelChar(c: char) {
    IsLower(c) || IsDigit(c) || c == '-'
  }

  /** What survives of a company part in a channel name: its ASCII letters and digits, lower-cased. */
  function SlackCompany(part: string): (r: string)
    ensures |r| <= |part|
    ensures forall i :: 0 <= i < |r| ==> IsChannelChar(r[i])
  {
    Lower(Keep(part, IsAlnum))
  }

  /** Of the characters a company part may hold, exactly the ASCII letters and digits pass the second filter. */
  lemma {:induction false} KeepLowerCompany(part: string)
    requires forall i :: 0 <= i < |part| ==> IsCompanyChar(part[i])
    ensures Keep(Lower(part), IsSlackChar) == SlackCompany(part)
    decreases |part|
  {
    if |part| > 0 {
      var c := part[0];
      assert IsSlackChar(LowerChar(c)) <==> IsAlnum(c);
      assert Lower(part)[1..] == Lower(part[1..]);
      KeepLowerCompany(part[1..]);
      LowerConcat(if IsAlnum(c) then [c] else "", Keep(part[1..], IsAlnum));
    }
  }

  /** Lower-casing and filtering the assembled name treats each of its pieces apart. */
  lemma CleanName(pre: string, part: string, stamp: string)
    requires forall i :: 0 <= i < |pre| ==> IsChannelChar(pre[i])
    requires forall i :: 0 <= i < |part| ==> IsCompanyChar(part[i])
    requires AllDigits(stamp)
    ensures Keep(Lower(pre + part + "-" + stamp), IsSlackChar) == pre + SlackCompany(part) + "-" + stamp
  {
    LowerConcat(pre + part + "-", stamp);
    LowerConcat(pre + part, "-");
    LowerConcat(pre, part);
    LowerFixes(pre);
    LowerFixes("-");
    LowerFixes(stamp);
    KeepConcat(pre + Lower(part) + "-", stamp, IsSlackChar);
    KeepConcat(pre + Lower(part), "-", IsSlackChar);
    KeepConcat(pre, Lower(part), IsSlackChar);
    KeepAll(pre, IsSlackChar);
    KeepAll("-", IsSlackChar);
    KeepAll(stamp, IsSlackChar);
    KeepLowerCompany(part);
  }

  /** The 80-character cut never shortens a name: it is `connect-`, the cleaned company part, `-` and the date. */
  lemma ChannelNameParts(company: Option<string>, t: DateTime)
    requires Valid(t)
    ensures ChannelName(company, t) == "connect-" + SlackCompany(CompanyPart(company)) + "-" + DateStamp(t)
    ensures Keep(Lower("connect-" + CompanyPart(company) + "-" + DateStamp(t)), IsSlackChar) == ChannelName(company, t)
  {
    var part, stamp := CompanyPart(company), DateStamp(t);
    DateStampShape(t);
    assert forall i :: 0 <= i < 8 ==> IsChannelChar("connect-"[i]);
    CleanName("connect-", part, stamp);
  }

  /** The name starts with `connect-`, holds only `[a-z0-9-]`, and is at most 37 characters long. */
  lemma ChannelNameShape(company: Option<string>, t: DateTime)
    requires Valid(t)
    ensures var r := ChannelName(company, t);
      && IsPrefix("connect-", r)
      && |r| <= 37
      && ChannelText(r)
  {
    ChannelNameParts(company, t);
    DateStampShape(t);
    ConnectIsChannelText();
    NameShape("connect-", SlackCompany(CompanyPart(company)), DateStamp(t));
  }

  lemma ConnectIsChannelText()
    ensures ChannelText("connect-")
  {
    forall i | 0 <= i < 8 ensures IsChannelChar("connect-"[i]) { }
  }

  /** A prefix, a cleaned company part and a date, joined by a dash. */
  lemma NameShape(pre: string, slack: string, stamp: string)
    requires ChannelText(pre) && ChannelText(slack) && AllDigits(stamp)
    ensures ChannelText(pre + slack + "-" + stamp)
    ensures IsPrefix(pre, pre + slack + "-" + stamp)
  {
    assert ChannelText("-");
    assert ChannelText(stamp) by {
      forall i | 0 <= i < |stamp| ensures IsChannelChar(stamp[i]) {
        assert IsDigit(stamp[i]);
      }
    }
    ChannelTextConcat(pre, slack);
    ChannelTextConcat(pre + slack, "-");
    ChannelTextConcat(pre + slack + "-", stamp);
    assert (pre + slack + "-" + stamp)[..|pre|] == pre;
  }

  /** Only channel-name characters. */
  predicate ChannelText(s: string) {
    forall i :: 0 <= i < |s| ==> IsChannelChar(s[i])
  }

  lemma ChannelTextConcat(a: string, b: string)
    requires ChannelText(a) && ChannelText(b)
    ensures ChannelText(a + b)
  {
    forall i | 0 <= i < |a + b| ensures IsChannelChar((a + b)[i]) {
      if i < |a| { assert (a + b)[i] == a[i]; } else { assert (a + b)[i] == b[i - |a|]; }
    }
  }

  /** Without a company the channel is the guest channel of the day. */
  lemma ChannelNameGuest(company: Option<string>, t: DateTime)
    requires Valid(t) && !Truthy(company)
    ensures ChannelName(company, t) == "connect-" + "guest" + "-" + DateStamp(t)
  {
    ChannelNameParts(company, t);
    GuestSurvives(CompanyPart(company));
  }

  lemma GuestSurvives(part: string)
    requires part == "guest"
    ensures SlackCompany(part) == "guest"
  {
    KeepAll(part, IsAlnum);
    LowerFixes(part);
  }

  /** Only the ASCII letters and digits of the first filter's output reach the second. */
  lemma {:induction false} KeepAlnumOfCompany(s: string)
    ensures Keep(Keep(s, IsCompanyChar), IsAlnum) == Keep(s, IsAlnum)
    decreases |s|
  {
    if |s| > 0 {
      KeepAlnumOfCompany(s[1..]);
      var head := if IsCompanyChar(s[0]) then [s[0]] else "";
      KeepConcat(head, Keep(s[1..], IsCompanyChar), IsAlnum);
    }
  }

  /**
   * A company name without ASCII letters or digits, a name written only in
   * Japanese for one, leaves an empty company part: the kana and kanji the
   * first filter keeps are removed by the second.
   */
  lemma ChannelNameDropsJapanese(company: Option<string>, t: DateTime)
    requires Valid(t) && Truthy(company)
    requires forall i :: 0 <= i < |company.value| ==> !IsAlnum(company.value[i])
    ensures ChannelName(company, t) == "connect--" + DateStamp(t)
  {
    ChannelNameParts(company, t);
    NoAlnumLeavesNothing(company.value);
    assert "connect-" + "" + "-" == "connect--";
  }

  lemma NoAlnumLeavesNothing(s: string)
    requires forall i :: 0 <= i < |s| ==> !IsAlnum(s[i])
    ensures SlackCompany(Take(Keep(s, IsCompanyChar), 20)) == ""
  {
    KeepAlnumOfCompany(s);
    KeepNone(s, IsAlnum);
    NoAlnumInPrefix(Keep(s, IsCompanyChar), Take(Keep(s, IsCompanyChar), 20));
  }

  /** A prefix of a text with no ASCII letter or digit has none either. */
  lemma NoAlnumInPrefix(kept: string, part: string)
    requires Keep(kept, IsAlnum) == "" && IsPrefix(part, kept)
    ensures SlackCompany(part) == ""
  {
    assert kept == part + kept[|part|..];
    KeepConcat(part, kept[|part|..], IsAlnum);
  }

  /** A short company name in ASCII letters and digits appears in the name, lower-cased. */
  lemma ChannelNameKeepsAscii(company: Option<string>, t: DateTime)
    requires Valid(t) && Truthy(company) && |company.value| <= 20
    requires forall i :: 0 <= i < |company.value| ==> IsAlnum(company.value[i])
    ensures ChannelName(company, t) == "connect-" + Lower(company.value) + "-" + DateStamp(t)
  {
    ChannelNameParts(company, t);
    KeepAll(company.value, IsCompanyChar);
    KeepAll(company.value, IsAlnum);
  }

  // ---------------------------------------------------------------------------
  // Type label
  // ---------------------------------------------------------------------------

  const Consultation := "技術相談"
  const Partnership := "パートナーシップ"
  const General := "一般お問い合わせ"

  /** `getTypeLabel`. */
  function TypeLabel(kind: Option<string>): (r: string)
    ensures r == Consultation <==> kind == Some("consultation")
    ensures r == Partnership <==> kind == Some("partnership")
    ensures r == General <==> !(kind == Some("consultation") || kind == Some("partnership"))
  {
    assert Consultation != Partnership && Consultation != General && Partnership != General by {
      assert |Consultation| == 4 && |Partnership| == 8 && |General| == 8;
      assert Partnership[0] != General[0];
    }
    match kind
    case Some("consultation") => Consultation
    case Some("partnership") => Partnership
    case _ => General
  }

  // ---------------------------------------------------------------------------
  // The endpoint
  // ---------------------------------------------------------------------------

  /** One Infisical secret. */
  datatype Secret = Secret(key: string, value: string)

  /** `secrets.find(s => s.secretKey === key)?.secretValue`. */
  function FindSecret(secrets: seq<Secret>, key: string): (r: Option<string>)
    ensures r.Some? <==> exists i :: 0 <= i < |secrets| && secrets[i].key == key
    ensures r.Some? ==> exists i :: 0 <= i < |secrets| && secrets[i] == Secret(key, r.value)
  {
    if |secrets| == 0 then None
    else if secrets[0].key == key then Some(secrets[0].value)
    else
      var r := FindSecret(secrets[1..], key);
      assert forall i :: 1 <= i < |secrets| ==> secrets[i] == secrets[1..][i - 1];
      r
  }

  /** What `slackService.createChannel` answers: `ok` and the created channel's name. */
  datatype ChannelResult = ChannelResult(ok: bool, name: string)

  /**
   * `POST /create-channel`. A `Failure` stands for an exception: an
   * unreadable body, an unreachable secret store, a failed channel call, or
   * (`followUpThrows`) one of the message or invitation calls made after the
   * channel exists. `now` is the clock reading the name is made from.
   */
  function CreateChannel(
    body: Result<ContactRequest>, secrets: Result<seq<Secret>>, now: DateTime,
    createChannel: string -> Result<ChannelResult>, followUpThrows: bool): (reply: Reply)
    requires Valid(now)
  {
    match body
    case Failure(_) => Reply(500, false, Unexpected, None)
    case Success(req) =>
      if !Reachable(req) then Reply(400, false, NeedsContact, None)
      else match secrets
        case Failure(_) => Reply(500, false, Unexpected, None)
        case Success(ss) =>
          if !Truthy(FindSecret(ss, "SLACK_BOT_TOKEN")) then Reply(500, false, ConfigError, None)
          else match createChannel(ChannelName(req.company, now))
            case Failure(_) => Reply(500, false, Unexpected, None)
            case Success(created) =>
              if !created.ok then Reply(500, false, CreateFailed, None)
              else if followUpThrows then Reply(500, false, Unexpected, None)
              else Reply(200, true, Created, Some(created.name))
  }

  /** A readable request is refused with 400 exactly when it names no way to reach the visitor. */
  lemma RejectsIffUnreachable(
    req: ContactRequest, secrets: Result<seq<Secret>>, now: DateTime,
    createChannel: string -> Result<ChannelResult>, followUpThrows: bool)
    requires Valid(now)
    ensures var reply := CreateChannel(Success(req), secrets, now, createChannel, followUpThrows);
      (reply.status == 400 <==> !(Truthy(req.email) || Truthy(req.company) || Truthy(req.name)))
      && (reply.status == 400 ==> reply.text == NeedsContact && !reply.success)
  {
  }

  /**
   * Success needs a reachable visitor, a bot token and a channel Slack
   * created under the derived name; every other outcome is a 400 or a 500.
   */
  lemma SucceedsOnlyWhenCreated(
    body: Result<ContactRequest>, secrets: Result<seq<Secret>>, now: DateTime,
    createChannel: string -> Result<ChannelResult>, followUpThrows: bool)
    requires Valid(now)
    ensures var reply := CreateChannel(body, secrets, now, createChannel, followUpThrows);
      && (reply.status == 200 || reply.status == 400 || reply.status == 500)
      && (reply.success <==> reply.status == 200)
      && (reply.success ==>
            && body.Success? && Reachable(body.value)
            && secrets.Success? && Truthy(FindSecret(secrets.value, "SLACK_BOT_TOKEN"))
            && var created := createChannel(ChannelName(body.value.company, now));
               created.Success? && created.value.ok && reply.channelName == Some(created.value.name))
  {
  }
}
