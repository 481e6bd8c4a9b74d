/** The single-user configuration at the top of the repository: one fixed
    address, fixed directories, and the role and model-input formatting
    used by the flat trainer. */
module FlatConfig {
  import opened Wrappers
  import opened Strings
  import opened InputFormat

  const MY_EMAIL: string := "me@company.com"
  const MODEL_OUTPUT_DIR: string := "model"
  const TRAINING_DATA_DIR: string := "TrainingData"

  /** `determine_role`: the lower-cased address as a substring of the
      lower-cased To header makes the mail Direct; failing that, of the CC
      header makes it CC; otherwise the user is Hidden. */
  function DetermineRole(to: string, cc: string): (r: Role)
    ensures r == Direct <==> Contains(Lower(to), Lower(MY_EMAIL))
    ensures r == CC <==> !Contains(Lower(to), Lower(MY_EMAIL)) && Contains(Lower(cc), Lower(MY_EMAIL))
    ensures r == Hidden <==> !Contains(Lower(to), Lower(MY_EMAIL)) && !Contains(Lower(cc), Lower(MY_EMAIL))
  {
    var me := Lower(MY_EMAIL);
    if Contains(Lower(to), me) then Direct
    else if Contains(Lower(cc), me) then CC
    else Hidden
  }

  /** `format_model_input` with this configuration's role. */
  function FormatModelInput(subject: string, body: string, sender: string, to: string, cc: string,
                            massMail: bool, attachmentTypes: Option<seq<string>>): (r: string)
    ensures StartsWith(r, E5_PREFIX)
  {
    FormatWithRole(DetermineRole(to, cc), subject, body, sender, to, massMail, attachmentTypes)
  }

  /** The fields read back in their fixed order, with the role computed
      from To and CC. */
  lemma FormatModelInputFields(subject: string, body: string, sender: string, to: string, cc: string,
                               massMail: bool, attachmentTypes: Option<seq<string>>)
    requires NoBar(subject) && NoBar(body) && NoBar(sender) && NoBar(to)
    requires forall k :: 0 <= k < |attachmentTypes.GetOr([])| ==> NoBar(attachmentTypes.GetOr([])[k])
    ensures Parse(FormatModelInput(subject, body, sender, to, cc, massMail, attachmentTypes))
         == Some(ModelInput(RoleText(DetermineRole(to, cc)), YesNo(massMail),
                            FormatAttachmentTypes(attachmentTypes.GetOr([])), sender, to, subject, body))
  {
    FormatWithRoleReadBack(DetermineRole(to, cc), subject, body, sender, to, massMail, attachmentTypes);
  }

  /** The CC header changes the text only by changing the role. */
  lemma CcOnlyThroughRole(subject: string, body: string, sender: string, to: string, cc1: string, cc2: string,
                          massMail: bool, attachmentTypes: Option<seq<string>>)
    requires DetermineRole(to, cc1) == DetermineRole(to, cc2)
    ensures FormatModelInput(subject, body, sender, to, cc1, massMail, attachmentTypes)
         == FormatModelInput(subject, body, sender, to, cc2, massMail, attachmentTypes)
  {
  }
}
