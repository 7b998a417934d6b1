/** The login page: a typed name resolves to a doctor or a clinic of the
    directory, a doctor taking precedence. */
module Login {
  import opened Records

  /** A directory entry as the login page loads it (`select("id,name")`). */
  datatype Account = Account(id: Id, name: string)

  /** The one identity key the page stores on success. */
  datatype Identity = DoctorIdentity(doctorId: Id) | ClinicIdentity(clinicId: Id)

  datatype LoginError = EmptyName | UnknownName

  /** The white space and line terminators `String.prototype.trim` strips. */
  predicate IsTrimmable(c: char)
  {
    c == '\t' || c == '\n' || c == '\U{000B}' || c == '\U{000C}' || c == '\r' || c == ' ' ||
    c == '\U{00A0}' || c == '\U{1680}' || ('\U{2000}' <= c <= '\U{200A}') ||
    c == '\U{2028}' || c == '\U{2029}' || c == '\U{202F}' || c == '\U{205F}' ||
    c == '\U{3000}' || c == '\U{FEFF}'
  }

  predicate Blank(s: string)
  {
    forall i :: 0 <= i < |s| ==> IsTrimmable(s[i])
  }

  function TrimStart(s: string): string
  {
    if |s| > 0 && IsTrimmable(s[0]) then TrimStart(s[1..]) else s
  }

  function TrimEnd(s: string): string
  {
    if |s| > 0 && IsTrimmable(s[|s| - 1]) then TrimEnd(s[..|s| - 1]) else s
  }

  /** `String.prototype.trim`. */
  function Trim(s: string): string
  {
    TrimEnd(TrimStart(s))
  }

  lemma {:induction false} TrimStartEmptyIffBlank(s: string)
    ensures TrimStart(s) == [] <==> Blank(s)
    ensures TrimStart(s) != [] ==> !IsTrimmable(TrimStart(s)[0])
  {
    if |s| > 0 && IsTrimmable(s[0]) {
      TrimStartEmptyIffBlank(s[1..]);
      assert Blank(s) <==> Blank(s[1..]) by {
        if Blank(s[1..]) {
          forall i | 0 <= i < |s| ensures IsTrimmable(s[i]) {
            if i > 0 { assert s[i] == s[1..][i - 1]; }
          }
        }
      }
    }
  }

  lemma {:induction false} TrimEndKeepsLeadingText(s: string)
    requires |s| > 0 && !IsTrimmable(s[0])
    ensures TrimEnd(s) != []
  {
    if IsTrimmable(s[|s| - 1]) {
      TrimEndKeepsLeadingText(s[..|s| - 1]);
    }
  }

  /** `!name.trim()` holds exactly of names made of white space only. */
  lemma TrimEmptyIffBlank(s: string)
    ensures Trim(s) == [] <==> Blank(s)
  {
    TrimStartEmptyIffBlank(s);
    if TrimStart(s) != [] {
      TrimEndKeepsLeadingText(TrimStart(s));
    }
  }

  /** `toLowerCase` on one character, for the ASCII letters. */
  function LowerChar(c: char): char
  {
    if 'A' <= c <= 'Z' then (c as int + 32) as char else c
  }

  function LowerCase(s: string): string
  {
    seq(|s|, i requires 0 <= i < |s| => LowerChar(s[i]))
  }

  /** `a.name.toLowerCase() === nameInput.toLowerCase()`: the untrimmed input. */
  predicate SameName(name: string, input: string)
  {
    LowerCase(name) == LowerCase(input)
  }

  /** `Array.prototype.find`: the position of the first account whose name
      matches, if any. */
  function FindByName(accounts: seq<Account>, input: string): (r: Option<nat>)
    ensures r.Some? ==> r.value < |accounts| && SameName(accounts[r.value].name, input)
    ensures r.Some? ==> forall j :: 0 <= j < r.value ==> !SameName(accounts[j].name, input)
    ensures r.None? ==> forall j :: 0 <= j < |accounts| ==> !SameName(accounts[j].name, input)
  {
    if |accounts| == 0 then None
    else if SameName(accounts[0].name, input) then Some(0)
    else match FindByName(accounts[1..], input)
      case None => None
      case Some(k) => Some(k + 1)
  }

  predicate AnyMatch(accounts: seq<Account>, input: string)
  {
    exists i :: 0 <= i < |accounts| && SameName(accounts[i].name, input)
  }

  /** `id` belongs to the first account whose name matches. */
  ghost predicate FirstMatch(accounts: seq<Account>, input: string, id: Id)
  {
    exists i :: 0 <= i < |accounts| && accounts[i].id == id && SameName(accounts[i].name, input) &&
      forall j :: 0 <= j < i ==> !SameName(accounts[j].name, input)
  }

  /** `handleLogin`: a blank name is refused; otherwise the first doctor
      whose name matches wins, then the first matching clinic; with neither
      nothing is stored and the name is reported unknown. */
  function ResolveLogin(doctors: seq<Account>, clinics: seq<Account>, input: string)
    : (r: Result<Identity, LoginError>)
    ensures r == Err(EmptyName) <==> Blank(input)
    ensures r == Err(UnknownName) <==> !Blank(input) && !AnyMatch(doctors, input) && !AnyMatch(clinics, input)
    ensures (r.Ok? && r.value.DoctorIdentity?) <==> !Blank(input) && AnyMatch(doctors, input)
    ensures (r.Ok? && r.value.ClinicIdentity?) <==>
              !Blank(input) && !AnyMatch(doctors, input) && AnyMatch(clinics, input)
    ensures r.Ok? && r.value.DoctorIdentity? ==> FirstMatch(doctors, input, r.value.doctorId)
    ensures r.Ok? && r.value.ClinicIdentity? ==> FirstMatch(clinics, input, r.value.clinicId)
  {
    TrimEmptyIffBlank(input);
    if Trim(input) == [] then Err(EmptyName)
    else match FindByName(doctors, input)
      case Some(i) => Ok(DoctorIdentity(doctors[i].id))
      case None =>
        match FindByName(clinics, input)
        case Some(j) => Ok(ClinicIdentity(clinics[j].id))
        case None => Err(UnknownName)
  }

  /** Lower-casing never turns a character into white space or back. */
  lemma LowerCharKeepsTrimmable(c: char)
    ensures IsTrimmable(LowerChar(c)) <==> IsTrimmable(c)
  {
  }

  lemma {:induction false} FindByNameFolds(accounts: seq<Account>, a: string, b: string)
    requires LowerCase(a) == LowerCase(b)
    ensures FindByName(accounts, a) == FindByName(accounts, b)
  {
    if |accounts| > 0 {
      FindByNameFolds(accounts[1..], a, b);
    }
  }

  /** Login depends on the typed name only through its lower-case form. */
  lemma LoginIgnoresCase(doctors: seq<Account>, clinics: seq<Account>, a: string, b: string)
    requires LowerCase(a) == LowerCase(b)
    ensures ResolveLogin(doctors, clinics, a) == ResolveLogin(doctors, clinics, b)
  {
    assert Blank(a) <==> Blank(b) by {
      forall i | 0 <= i < |a| ensures IsTrimmable(a[i]) <==> IsTrimmable(b[i]) {
        assert LowerCase(a)[i] == LowerCase(b)[i];
        LowerCharKeepsTrimmable(a[i]);
        LowerCharKeepsTrimmable(b[i]);
      }
    }
    TrimEmptyIffBlank(a);
    TrimEmptyIffBlank(b);
    FindByNameFolds(doctors, a, b);
    FindByNameFolds(clinics, a, b);
  }

  /** No entry's name starts with white space. */
  predicate NoLeadingSpace(accounts: seq<Account>)
  {
    forall i :: 0 <= i < |accounts| ==> |accounts[i].name| == 0 || !IsTrimmable(accounts[i].name[0])
  }

  /** An input that starts with white space matches no name that does not. */
  lemma {:induction false} PaddedInputMatchesNone(accounts: seq<Account>, input: string)
    requires NoLeadingSpace(accounts)
    requires |input| > 0 && IsTrimmable(input[0])
    ensures !AnyMatch(accounts, input)
  {
    forall i | 0 <= i < |accounts|
      ensures !SameName(accounts[i].name, input)
    {
      var name := accounts[i].name;
      if SameName(name, input) {
        assert |name| == |LowerCase(name)| == |LowerCase(input)| == |input|;
        assert LowerCase(name)[0] == LowerChar(name[0]);
        assert LowerCase(input)[0] == LowerChar(input[0]);
        LowerCharKeepsTrimmable(name[0]);
        LowerCharKeepsTrimmable(input[0]);
      }
    }
  }

  /** Trimming is only the blank check: when no doctor or clinic name starts
      with white space, a non-blank input that does is refused as unknown. */
  lemma PaddedNameIsUnknownInGeneral(doctors: seq<Account>, clinics: seq<Account>, input: string)
    requires NoLeadingSpace(doctors) && NoLeadingSpace(clinics)
    requires |input| > 0 && IsTrimmable(input[0]) && !Blank(input)
    ensures ResolveLogin(doctors, clinics, input) == Err(UnknownName)
  {
    PaddedInputMatchesNone(doctors, input);
    PaddedInputMatchesNone(clinics, input);
  }

  /** One instance: a leading space stops a real name matching. */
  lemma PaddedNameIsUnknown()
    ensures ResolveLogin([Account("d1", "Ann")], [], " Ann") == Err(UnknownName)
  {
    assert !Blank(" Ann") by { assert !IsTrimmable(" Ann"[1]); }
    assert !SameName("Ann", " Ann") by { assert |LowerCase("Ann")| != |LowerCase(" Ann")|; }
  }

  /** A name shared by a doctor and a clinic logs in as the doctor, and
      capitals do not matter. */
  lemma DoctorWinsOverClinic()
    ensures ResolveLogin([Account("d1", "Lee")], [Account("c1", "lee")], "LEE") == Ok(DoctorIdentity("d1"))
  {
    assert !Blank("LEE") by { assert !IsTrimmable("LEE"[0]); }
    assert LowerCase("Lee") == LowerCase("LEE") == "lee";
  }
}
