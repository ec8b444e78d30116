/** The configurable string settings of the book generator (generate/src/util.rs). */
module GenUtil {
  import opened Wrappers

  /** `OptSetting`: a string that may or may not have been configured. */
  datatype OptSetting = OptSetting(val: Option<string>)

  /** `OptSetting::new`: nothing configured. */
  function NewOptSetting(): (r: OptSetting)
    ensures !IsSet(r) && Get(r) == None
  {
    OptSetting(None)
  }

  predicate IsSet(s: OptSetting)
  {
    s.val.Some?
  }

  function Get(s: OptSetting): (r: Option<string>)
    ensures r.Some? <==> IsSet(s)
  {
    s.val
  }

  /** `From<T: Into<Box<str>>>`: a converted string is always configured. */
  function OptFrom(v: string): (r: OptSetting)
    ensures IsSet(r) && Get(r) == Some(v)
  {
    OptSetting(Some(v))
  }

  /** `OptSetting::set`: the old value is overwritten by the converted one. */
  function OptSet(s: OptSetting, v: OptSetting): OptSetting
  {
    v
  }

  /** Setting a string makes it configured and readable, whatever was there before. */
  lemma OptSetThenGet(s: OptSetting, v: string)
    ensures IsSet(OptSet(s, OptFrom(v)))
    ensures Get(OptSet(s, OptFrom(v))) == Some(v)
  {
  }

  /** `Setting`: a built-in default or a user override. */
  datatype Setting = Default(dft: string) | Override(over: string)

  /** `Setting::dft`. */
  function Dft(d: string): (r: Setting)
    ensures Deref(r) == d && r.Default?
  {
    Default(d)
  }

  /** `Deref for Setting`: the string in force. */
  function Deref(s: Setting): string
  {
    match s
    case Default(x) => x
    case Override(x) => x
  }

  /** `From<&str>`, `From<Box<str>>` and `From<String>`, which agree: an override. */
  function SettingFrom(v: string): (r: Setting)
    ensures r.Override? && Deref(r) == v
  {
    Override(v)
  }

  /** `Setting::set`: always becomes an override. */
  function Set(s: Setting, v: string): (r: Setting)
    ensures r.Override?
    ensures Deref(r) == v
  {
    Override(v)
  }

  /** Only the last `set` matters, and a set string is read back. */
  lemma SetLastWins(s: Setting, v: string, w: string)
    ensures Set(Set(s, v), w) == Set(s, w)
    ensures Deref(Set(s, v)) == v
    ensures Set(s, v) == SettingFrom(v)
  {
  }
}
