/** Choosing the outgoing mail server of an account from its login. */
module SmtpDirectory {
  import opened Wrappers
  import opened Sequences
  import opened Text

  datatype Server = Server(host: string, port: int)

  /** The submission port every known provider and the fallback use. */
  const SubmissionPort: int := 587

  /** The fixed table of well-known mail domains. */
  const KnownServers: map<string, Server> := map[
    "gmail.com" := Server("smtp.gmail.com", 587),
    "googlemail.com" := Server("smtp.gmail.com", 587),
    "yahoo.com" := Server("smtp.mail.yahoo.com", 587),
    "outlook.com" := Server("smtp-mail.outlook.com", 587),
    "hotmail.com" := Server("smtp-mail.outlook.com", 587),
    "live.com" := Server("smtp-mail.outlook.com", 587),
    "mail.ru" := Server("smtp.mail.ru", 587),
    "bk.ru" := Server("smtp.mail.ru", 587),
    "list.ru" := Server("smtp.mail.ru", 587),
    "inbox.ru" := Server("smtp.mail.ru", 587),
    "yandex.ru" := Server("smtp.yandex.ru", 587),
    "ya.ru" := Server("smtp.yandex.ru", 587),
    "rambler.ru" := Server("smtp.rambler.ru", 587),
    "lenta.ru" := Server("smtp.rambler.ru", 587),
    "autorambler.ru" := Server("smtp.rambler.ru", 587),
    "myrambler.ru" := Server("smtp.rambler.ru", 587),
    "ro.ru" := Server("smtp.rambler.ru", 587),
    "icloud.com" := Server("smtp.mail.me.com", 587),
    "me.com" := Server("smtp.mail.me.com", 587),
    "mac.com" := Server("smtp.mail.me.com", 587)
  ]

  /** Every provider in the table is reached on the submission port. */
  lemma KnownServersSubmit()
    ensures forall d :: d in KnownServers ==> KnownServers[d].port == SubmissionPort
  {
  }

  /** The text after the last '@' of the login, or the whole login when it
      has none (Python's login.split('@')[-1]). */
  function DomainOf(login: string): (d: string)
    ensures '@' !in d
    ensures |d| <= |login| && login[|login| - |d|..] == d
    ensures |d| < |login| ==> login[|login| - |d| - 1] == '@'
  {
    match LastIndexOf(login, '@')
    case None => login
    case Some(k) => login[k + 1..]
  }

  /** The server for a lowercased domain: the table's entry, or
      smtp.<domain> on the submission port for a domain it does not know. */
  function ServerForDomain(domain: string): (srv: Server)
    ensures srv.port == SubmissionPort
    ensures |srv.host| > 0
    ensures domain in KnownServers ==> srv == KnownServers[domain]
    ensures domain !in KnownServers ==> srv.host == "smtp." + domain
  {
    if domain in KnownServers then KnownServers[domain]
    else Server("smtp." + domain, SubmissionPort)
  }

  function ResolveServer(login: string): (srv: Server)
    ensures srv.port == SubmissionPort && |srv.host| > 0
  {
    ServerForDomain(Lower(DomainOf(login)))
  }

  /** A login is resolved by the part after its '@', without regard to case;
      a login without '@' is resolved as a domain of its own. */
  lemma ResolveLogin(local: string, domain: string)
    requires '@' !in domain
    ensures ResolveServer(local + "@" + domain) == ServerForDomain(Lower(domain))
  {
    var login := local + "@" + domain;
    var d := DomainOf(login);
    assert forall k :: 0 <= k < |d| ==> login[|login| - |d| + k] == d[k];
    assert forall k :: 0 <= k < |domain| ==> login[|local| + 1 + k] == domain[k];
    assert login[|local|] == '@';
    assert d == domain;
  }

  lemma GmailServer()
    ensures ServerForDomain(Lower("gmail.com")) == Server("smtp.gmail.com", 587)
  {
    assert Lower("gmail.com") == "gmail.com";
  }

  /** user@gmail.com and any other gmail.com login go to Google's server. */
  lemma KnownDomain(local: string)
    ensures ResolveServer(local + "@" + "gmail.com") == Server("smtp.gmail.com", 587)
  {
    ResolveLogin(local, "gmail.com");
    GmailServer();
  }

  lemma MailRuServer()
    ensures ServerForDomain(Lower("Mail.RU")) == Server("smtp.mail.ru", 587)
  {
    assert Lower("Mail.RU") == "mail.ru";
  }

  /** The domain is looked up after lowercasing. */
  lemma KnownDomainInCapitals(local: string)
    ensures ResolveServer(local + "@" + "Mail.RU") == Server("smtp.mail.ru", 587)
  {
    ResolveLogin(local, "Mail.RU");
    MailRuServer();
  }

  /** A login without '@' is resolved as a domain of its own. */
  lemma ResolveBareLogin(login: string)
    requires '@' !in login
    ensures ResolveServer(login) == ServerForDomain(Lower(login))
  {
  }

  /** The longest known domains (googlemail.com, autorambler.ru) have 14 characters. */
  lemma NotKnownWhenLong(domain: string)
    requires |domain| > 14
    ensures domain !in KnownServers
  {
  }

  /** A domain missing from the table gets smtp.<domain> on port 587. */
  lemma UnknownDomainServer()
    ensures ServerForDomain(Lower("unknown-domain.xyz")) == Server("smtp." + "unknown-domain.xyz", 587)
  {
    var d := "unknown-domain.xyz";
    LowerUnknownDomain();
    NotKnownWhenLong(d);
  }

  lemma LowerUnknownDomain()
    ensures Lower("unknown-domain.xyz") == "unknown-domain.xyz"
  {
  }

  lemma UnknownDomain(local: string)
    ensures ResolveServer(local + "@" + "unknown-domain.xyz") == Server("smtp." + "unknown-domain.xyz", 587)
  {
    ResolveLogin(local, "unknown-domain.xyz");
    UnknownDomainServer();
  }
}
