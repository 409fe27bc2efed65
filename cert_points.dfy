/** `get_certification_points`: the tier a certification name falls in.
    Points are counted in halves so that the lowest tier's 2.5 is exact. */
module CertPoints {
  import opened Strings

  datatype Tier = ProfessionalOrSpecialty | AssociateOrHashicorp | AnythingElse

  /** The "category" the tool reports for a tier. */
  function Category(t: Tier): string {
    match t
    case ProfessionalOrSpecialty => "Any Professional or Specialty"
    case AssociateOrHashicorp => "Any Associate or Hashicorp"
    case AnythingElse => "Anything Else"
  }

  /** Twice the "points" the tool reports for a tier: 10, 5 and 2.5 points. */
  function HalfPoints(t: Tier): (h: nat)
    ensures h == 5 || h == 10 || h == 20
  {
    match t
    case ProfessionalOrSpecialty => 20
    case AssociateOrHashicorp => 10
    case AnythingElse => 5
  }

  predicate MentionsProfessional(lowered: string) {
    Contains(lowered, "professional") || Contains(lowered, "specialty")
  }

  predicate MentionsAssociate(lowered: string) {
    Contains(lowered, "associate") || Contains(lowered, "hashicorp")
  }

  /** The if/elif chain over the lower-cased name: the first test that
      matches decides. */
  function Classify(name: string): Tier {
    var lowered := Lower(name);
    if MentionsProfessional(lowered) then ProfessionalOrSpecialty
    else if MentionsAssociate(lowered) then AssociateOrHashicorp
    else AnythingElse
  }

  /** Whether the database could be opened and read. The rows it returns
      never influence the answer, so only success or failure is modelled. */
  datatype DbStatus = DbReady | DbFailed(reason: string)

  /** The dict the tool returns: a category with its points, or an "error" entry. */
  datatype PointsReply = Points(category: string, halfPoints: nat) | DbError(message: string)

  function GetCertificationPoints(name: string, db: DbStatus): PointsReply {
    match db
    case DbFailed(reason) => DbError("Database error: " + reason)
    case DbReady =>
      var t := Classify(name);
      Points(Category(t), HalfPoints(t))
  }

  /** The same name in upper, lower or mixed case gets the same tier. */
  lemma ClassifyIgnoresCase(name: string)
    ensures Classify(name) == Classify(Lower(name))
  {
    LowerIdempotent(name);
  }

  /** The tiers in priority order: a professional or specialty keyword wins
      even when an associate or HashiCorp keyword is present too; an
      associate or HashiCorp keyword wins only without those; everything else
      is the lowest tier. */
  lemma ClassifyPriority(name: string)
    ensures MentionsProfessional(Lower(name)) <==> Classify(name) == ProfessionalOrSpecialty
    ensures !MentionsProfessional(Lower(name)) && MentionsAssociate(Lower(name))
            <==> Classify(name) == AssociateOrHashicorp
    ensures !MentionsProfessional(Lower(name)) && !MentionsAssociate(Lower(name))
            <==> Classify(name) == AnythingElse
  {
  }

  /** Adding text to a name, before or after it, never lowers its tier. */
  lemma ClassifyMonotone(a: string, b: string)
    ensures HalfPoints(Classify(a + b)) >= HalfPoints(Classify(a))
    ensures HalfPoints(Classify(a + b)) >= HalfPoints(Classify(b))
  {
    LowerAppend(a, b);
    var la, lb := Lower(a), Lower(b);
    forall w | Contains(la, w) ensures Contains(la + lb, w) {
      ContainsExtend(la, w, lb);
    }
    forall w | Contains(lb, w) ensures Contains(la + lb, w) {
      ContainsExtend(lb, w, la);
    }
  }

  /** With a working database the tool answers exactly one of the three
      (category, points) pairs, and the lowest tier is "Anything Else" with
      2.5 points; a database failure gives only the error message. */
  lemma PointsTotal(name: string, db: DbStatus)
    ensures db.DbReady? ==>
              var r := GetCertificationPoints(name, db);
              r == Points("Any Professional or Specialty", 20)
              || r == Points("Any Associate or Hashicorp", 10)
              || r == Points("Anything Else", 5)
    ensures db.DbFailed? ==> GetCertificationPoints(name, db) == DbError("Database error: " + db.reason)
  {
  }

  /** The three tiers report three different categories and point values. */
  lemma TiersDistinct(t: Tier, u: Tier)
    ensures t != u ==> HalfPoints(t) != HalfPoints(u) && Category(t) != Category(u)
  {
    if t != u {
      assert |Category(t)| != |Category(u)|;
    }
  }

  /** A professional certification is in the top tier. */
  lemma ClassifyProfessionalExample()
    ensures Classify("AWS Solutions Architect Professional") == ProfessionalOrSpecialty
  {
    var lowered := Lower("AWS Solutions Architect Professional");
    assert lowered[24..36] == "professional";
    assert OccursAt(lowered, 24, "professional");
  }

  /** A HashiCorp associate certification is in the middle tier. */
  lemma ClassifyHashicorpExample()
    ensures Classify("HashiCorp Terraform Associate") == AssociateOrHashicorp
  {
    var name := "HashiCorp Terraform Associate";
    LowerAvoids(name, 'l');
    NotContainsChar(Lower(name), "professional", 11);
    NotContainsChar(Lower(name), "specialty", 6);
    HashicorpLowered();
  }

  lemma HashicorpLowered()
    ensures OccursAt(Lower("HashiCorp Terraform Associate"), 0, "hashicorp")
  {
    var head, rest := "HashiCorp", " Terraform Associate";
    assert "HashiCorp Terraform Associate" == head + rest;
    LowerAppend(head, rest);
    assert Lower(head) == "hashicorp";
    assert (Lower(head) + Lower(rest))[0..9] == Lower(head);
  }

  /** A badge with none of the keywords is in the lowest tier. */
  lemma ClassifyOtherExample()
    ensures Classify("Random Badge") == AnythingElse
  {
    var name := "Random Badge";
    LowerAvoids(name, 'p');
    LowerAvoids(name, 's');
    LowerAvoids(name, 'h');
    NotContainsChar(Lower(name), "professional", 0);
    NotContainsChar(Lower(name), "specialty", 0);
    NotContainsChar(Lower(name), "associate", 1);
    NotContainsChar(Lower(name), "hashicorp", 0);
  }
}
