/** The connection string `dbconnect` assembles before handing it to the
    PostgreSQL client library (scripts/flexible_freeze.py, `dbconnect`). */
module Connect {
  import opened Optional
  import opened Text

  /** The optional connection settings. The script tests each with Python
      truthiness, so an absent setting and an empty one are the same here: "". */
  datatype Credentials = Credentials(user: string, host: string, port: string, password: string)

  /** The application name every connection announces. */
  const ApplicationSetting: string := "application_name=flexible_freeze"

  /** The text one optional setting contributes: nothing when it is not given,
      otherwise ` key=value ` with a blank on either side. */
  function Segment(key: string, value: string): string
  {
    if value == "" then "" else " " + key + "=" + value + " "
  }

  /** The part every connection string starts with. */
  function Lead(db: string): string
  {
    ("dbname=" + db) + (" " + ApplicationSetting)
  }

  /** The connection string for database `db`, or None when no database name
      is given (the script then reports an error and connects to nothing).
      It starts with the database and application names; host, user,
      password and port follow in that fixed order, each only when given. */
  function ConnectString(db: string, c: Credentials): (r: Option<string>)
    ensures r.None? <==> db == ""
    ensures r.Some? ==> Lead(db) <= r.value
    ensures r.Some? && c == Credentials("", "", "", "") ==> r.value == Lead(db)
  {
    if db == "" then None
    else Some(Lead(db) + Options(c))
  }

  /** The optional settings, in the order they are appended. */
  function OptionalSettings(c: Credentials): seq<(string, string)>
  {
    [("host", c.host), ("user", c.user), ("password", c.password), ("port", c.port)]
  }

  /** The segments of a list of optional settings, in order. */
  function Segments(settings: seq<(string, string)>): string
  {
    if settings == [] then ""
    else Segment(settings[0].0, settings[0].1) + Segments(settings[1..])
  }

  /** The optional part of the connection string. */
  function Options(c: Credentials): string
  {
    Segments(OptionalSettings(c))
  }

  /** The `key=value` setting one given option contributes. */
  function Setting(key: string, value: string): seq<string>
  {
    if value == "" then [] else [key + "=" + value]
  }

  /** The settings a list of optional settings contributes, in order. */
  function Settings(settings: seq<(string, string)>): seq<string>
  {
    if settings == [] then []
    else Setting(settings[0].0, settings[0].1) + Settings(settings[1..])
  }

  predicate NoBlank(s: string) { ' ' !in s }

  /** The characters libpq's connection-string parser reads specially:
      whitespace of any kind separates words, a backslash escapes the next
      character, and a single quote opens a quoted value. */
  predicate Special(ch: char)
  {
    ch == ' ' || ch == '\t' || ch == '\n' || ch == '\r' || ch == '\U{000C}' || ch == '\U{000B}'
    || ch == '\\' || ch == '\''
  }

  /** A value libpq reads verbatim as the rest of its `key=value` word. */
  predicate PlainValue(s: string)
  {
    forall i :: 0 <= i < |s| ==> !Special(s[i])
  }

  lemma PlainValueHasNoBlank(s: string)
    requires PlainValue(s)
    ensures NoBlank(s)
  {
  }

  /** Read word by word, the connection string holds exactly the database
      name, the application name and then each given setting in the order
      host, user, password, port. For plain values (no whitespace, backslash
      or single quote) this blank-separated reading is also how libpq's
      parser splits the string, since nothing in it is escaped or quoted. */
  lemma ConnectStringSettings(db: string, c: Credentials)
    requires db != "" && PlainValue(db)
    requires PlainValue(c.user) && PlainValue(c.host) && PlainValue(c.port) && PlainValue(c.password)
    ensures ConnectString(db, c).Some?
    ensures Words(ConnectString(db, c).value)
            == ["dbname=" + db] + ([ApplicationSetting]
               + (Setting("host", c.host) + (Setting("user", c.user)
               + (Setting("password", c.password) + Setting("port", c.port)))))
  {
    var w1 := "dbname=" + db;
    PlainValueHasNoBlank(db);
    PlainValueHasNoBlank(c.user);
    PlainValueHasNoBlank(c.host);
    PlainValueHasNoBlank(c.port);
    PlainValueHasNoBlank(c.password);
    ConnectStringText(db, c);
    OptionsWords(c);
    SettingsInOrder(c);
    SettingHasNoBlank();
    DbSettingHasNoBlank(db);
    TwoWords(w1, ApplicationSetting, Options(c));
  }

  lemma ConnectStringText(db: string, c: Credentials)
    requires db != ""
    ensures ConnectString(db, c) == Some(("dbname=" + db) + (" " + (ApplicationSetting + Options(c))))
  {
    var a, b, o := "dbname=" + db, " " + ApplicationSetting, Options(c);
    assert ConnectString(db, c) == Some(Lead(db) + o);
    assert Lead(db) == a + b;
    assert (a + b) + o == a + (b + o);
    assert b + o == " " + (ApplicationSetting + o);
  }

  lemma SettingHasNoBlank()
    ensures ApplicationSetting != [] && ' ' !in ApplicationSetting
  {
  }

  lemma DbSettingHasNoBlank(db: string)
    requires NoBlank(db)
    ensures ' ' !in "dbname=" + db
  {
    var k := "dbname=";
    assert ' ' !in k;
  }

  lemma TwoWords(w1: string, w2: string, t: string)
    requires w1 != [] && w2 != [] && ' ' !in w1 && ' ' !in w2
    requires t == [] || t[0] == ' '
    ensures Words(w1 + (" " + (w2 + t))) == [w1] + ([w2] + Words(t))
  {
    WordThen(w1, w2 + t);
    WordsOfWord(w2, t);
  }

  /** The optional part reads as the given settings, in order. */
  lemma OptionsWords(c: Credentials)
    requires NoBlank(c.user) && NoBlank(c.host) && NoBlank(c.port) && NoBlank(c.password)
    ensures Words(Options(c)) == Settings(OptionalSettings(c))
    ensures Options(c) == [] || Options(c)[0] == ' '
  {
    SegmentsWords(OptionalSettings(c));
  }

  lemma SettingsInOrder(c: Credentials)
    ensures Settings(OptionalSettings(c)) == Setting("host", c.host) + (Setting("user", c.user)
                                             + (Setting("password", c.password) + Setting("port", c.port)))
  {
    var h, u, p, o := Setting("host", c.host), Setting("user", c.user),
                      Setting("password", c.password), Setting("port", c.port);
    var s3 := [("port", c.port)];
    assert s3[1..] == [];
    assert Settings(s3) == o;
    var s2 := [("password", c.password)] + s3;
    assert s2[1..] == s3;
    assert Settings(s2) == p + o;
    var s1 := [("user", c.user)] + s2;
    assert s1[1..] == s2;
    assert Settings(s1) == u + (p + o);
    var s := [("host", c.host)] + s1;
    assert s[1..] == s1;
    assert Settings(s) == h + (u + (p + o));
    assert s == OptionalSettings(c);
  }

  lemma {:induction false} SegmentsWords(settings: seq<(string, string)>)
    requires forall i :: 0 <= i < |settings| ==> NoBlank(settings[i].0) && NoBlank(settings[i].1)
    ensures Words(Segments(settings)) == Settings(settings)
    ensures Segments(settings) == [] || Segments(settings)[0] == ' '
  {
    if settings != [] {
      SegmentsWords(settings[1..]);
      SegmentWords(settings[0].0, settings[0].1, Segments(settings[1..]));
    }
  }

  lemma SegmentWords(key: string, value: string, t: string)
    requires NoBlank(key) && NoBlank(value)
    requires t == [] || t[0] == ' '
    ensures Words(Segment(key, value) + t) == Setting(key, value) + Words(t)
    ensures Segment(key, value) + t == [] || (Segment(key, value) + t)[0] == ' '
  {
    if value == "" {
      assert Segment(key, value) + t == t;
    } else {
      var w := key + "=" + value;
      assert ' ' !in w;
      assert Segment(key, value) + t == " " + (w + (" " + t));
      WordsOfBlank(w + (" " + t));
      WordThen(w, t);
    }
  }
}
