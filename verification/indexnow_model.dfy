/**
 * The IndexNow submission body ("submitting a set of URLs"): one record per
 * batch file, and the JSON object it is serialized as, field by field,
 * under the names the protocol uses.
 */
module IndexNowModel {
  import opened Wrappers

  /** One submission: the site's host, its key, where the key file lives, and the URLs in order. */
  datatype Request = Request(host: string, key: string, keyLocation: string, urlList: seq<string>)

  /** The JSON values a request's members take. */
  datatype Json = Str(s: string) | StrArray(items: seq<string>)

  /** The JSON object of a request: its members in declaration order, `key_location` and `url_list` renamed. */
  function Fields(r: Request): (fs: seq<(string, Json)>)
    ensures |fs| == 4
    ensures fs[0] == ("host", Str(r.host)) && fs[1] == ("key", Str(r.key))
    ensures fs[2] == ("keyLocation", Str(r.keyLocation))
    ensures fs[3] == ("urlList", StrArray(r.urlList))
  {
    [("host", Str(r.host)), ("key", Str(r.key)),
     ("keyLocation", Str(r.keyLocation)), ("urlList", StrArray(r.urlList))]
  }

  /** The value of the first member named `name`, if any. */
  function Member(fs: seq<(string, Json)>, name: string): (v: Option<Json>)
    ensures v.Some? <==> exists i :: 0 <= i < |fs| && fs[i].0 == name
    ensures v.Some? ==> exists i :: 0 <= i < |fs| && fs[i] == (name, v.value)
  {
    if fs == [] then None
    else if fs[0].0 == name then Some(fs[0].1)
    else
      var v := Member(fs[1..], name);
      assert forall i :: 0 <= i < |fs| - 1 ==> fs[1..][i] == fs[i + 1];
      assert v.None? ==> forall i :: 0 < i < |fs| ==> fs[i].0 != name by {
        if v.None? {
          forall i | 0 < i < |fs| ensures fs[i].0 != name {
            assert fs[1..][i - 1] == fs[i];
          }
        }
      }
      v
  }

  /**
   * Reading a request back from its members by name: each field is the
   * first member of its name, which must hold a value of the field's kind.
   */
  function FromFields(fs: seq<(string, Json)>): (r: Option<Request>)
    ensures r.Some? ==> Member(fs, "host") == Some(Str(r.value.host)) && Member(fs, "key") == Some(Str(r.value.key))
    ensures r.Some? ==> Member(fs, "keyLocation") == Some(Str(r.value.keyLocation))
    ensures r.Some? ==> Member(fs, "urlList") == Some(StrArray(r.value.urlList))
    ensures Member(fs, "host").None? || Member(fs, "key").None? ==> r.None?
    ensures Member(fs, "keyLocation").None? || Member(fs, "urlList").None? ==> r.None?
  {
    match (Member(fs, "host"), Member(fs, "key"), Member(fs, "keyLocation"), Member(fs, "urlList"))
    case (Some(Str(h)), Some(Str(k)), Some(Str(kl)), Some(StrArray(us))) => Some(Request(h, k, kl, us))
    case _ => None
  }

  /** The member names are the four the protocol expects, each once. */
  lemma FieldNames(r: Request)
    ensures var fs := Fields(r);
      [fs[0].0, fs[1].0, fs[2].0, fs[3].0] == ["host", "key", "keyLocation", "urlList"]
    ensures forall i, j :: 0 <= i < j < 4 ==> Fields(r)[i].0 != Fields(r)[j].0
  {
  }

  /** Serializing and reading back gives the same request. */
  lemma FieldsRoundTrip(r: Request)
    ensures FromFields(Fields(r)) == Some(r)
  {
    var fs := Fields(r);
    assert Member(fs, "host") == Some(Str(r.host));
    assert Member(fs, "key") == Some(Str(r.key));
    assert Member(fs, "keyLocation") == Some(Str(r.keyLocation));
    assert Member(fs, "urlList") == Some(StrArray(r.urlList));
  }
}
