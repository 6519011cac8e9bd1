/** Course labels: the title printed on a certificate
    (`obter_nome_curso_para_certificado`), the attendance-to-enrollment label
    table (`mapear_curso_inscricao`) and the course-matching rules
    (`cursos_correspondentes`). */
module Courses {
  import opened Text
  import opened Normalization

  const PcGamerTitle := "Montagem e configuração de computadores de alto desempenho - PC Gamer"
  const PhoneRepairTitle := "Manutenção de Celulares"
  const RoboticsTitle := "Robótica, Programação"
  const GameDevTitle := "Desenvolvimento de Jogos"

  /** The title of a known course label, given in lower case. */
  function KnownTitle(low: string): Option<string> {
    if low == "pc gamer" then Some(PcGamerTitle)
    else if low == "m. celular" || low == "manutenção de celulares" then Some(PhoneRepairTitle)
    else if low == "robótica" || low == "robótica, programação" then Some(RoboticsTitle)
    else if low == "dev. jogos" then Some(GameDevTitle)
    else None
  }

  /** The title printed on the certificate for an attendance course label:
      the label is compared in lower case with the known labels, and an
      unknown label is printed as it is. */
  function CertificateCourse(course: string): (r: string)
    ensures r == course || r in {PcGamerTitle, PhoneRepairTitle, RoboticsTitle, GameDevTitle}
    ensures KnownTitle(LowerStr(course)).None? ==> r == course
  {
    KnownTitle(LowerStr(course)).GetOr(course)
  }

  /** A known label is recognised in any mixture of upper and lower case. */
  lemma CertificateCourseIgnoresCase(a: string, b: string)
    requires LowerStr(a) == LowerStr(b)
    requires KnownTitle(LowerStr(a)).Some?
    ensures CertificateCourse(b) == CertificateCourse(a)
  {
  }

  lemma LowerPhoneRepairTitle()
    ensures LowerStr(PhoneRepairTitle) == "manutenção de celulares"
  {
  }

  lemma LowerRoboticsTitle()
    ensures LowerStr(RoboticsTitle) == "robótica, programação"
  {
  }

  /** Every printed title is printed as it is when looked up again, so the
      lookup is idempotent. */
  lemma CertificateCourseIdempotent(course: string)
    ensures CertificateCourse(CertificateCourse(course)) == CertificateCourse(course)
  {
    var r := CertificateCourse(course);
    if r == PhoneRepairTitle {
      LowerPhoneRepairTitle();
    } else if r == RoboticsTitle {
      LowerRoboticsTitle();
    } else if r == PcGamerTitle {
      assert |LowerStr(r)| == |PcGamerTitle|;
    } else if r == GameDevTitle {
      assert |LowerStr(r)| == |GameDevTitle|;
    }
  }

  /** The attendance course labels whose enrollment-form label differs. */
  const EnrollmentLabel: map<string, string> := map[
    "PC Gamer" := "Montagem e Configuração de Computadores de Alto Desempenho (PC GAMER)",
    "Robótica" := "Robótica",
    "Robótica, Programação" := "Robótica",
    "Manutenção de Celulares" := "Manutenção de Celulares",
    "M. Celular" := "Manutenção de Celulares",
    "Dev. Jogos" := "Desenvolvimento de Jogos"
  ]

  /** `mapear_curso_inscricao`: the enrollment-form label for an attendance
      label, compared exactly (case and accents included); any other label
      is its own. */
  function MapEnrollmentCourse(course: string): (r: string)
    ensures course in EnrollmentLabel ==> r == EnrollmentLabel[course]
    ensures course !in EnrollmentLabel ==> r == course
    ensures r == course || r in EnrollmentLabel.Values
  {
    if course in EnrollmentLabel then EnrollmentLabel[course] else course
  }

  /** The enrollment-form labels are mapped to themselves or not at all. */
  lemma EnrollmentLabelsFixed()
    ensures forall v :: v in EnrollmentLabel.Values ==> v !in EnrollmentLabel || EnrollmentLabel[v] == v
  {
    var pc := "Montagem e Configuração de Computadores de Alto Desempenho (PC GAMER)";
    var games := "Desenvolvimento de Jogos";
    assert EnrollmentLabel.Values == {pc, "Robótica", "Manutenção de Celulares", games} by {
      assert EnrollmentLabel["PC Gamer"] == pc;
      assert EnrollmentLabel["Robótica"] == "Robótica";
      assert EnrollmentLabel["Manutenção de Celulares"] == "Manutenção de Celulares";
      assert EnrollmentLabel["Dev. Jogos"] == games;
    }
    assert |pc| != |"PC Gamer"| && |pc| != |"Robótica"| && |pc| != |"Robótica, Programação"|;
    assert |pc| != |"Manutenção de Celulares"| && |pc| != |"M. Celular"| && |pc| != |"Dev. Jogos"|;
    assert |games| != |"PC Gamer"| && |games| != |"Robótica"| && |games| != |"Robótica, Programação"|;
    assert |games| != |"Manutenção de Celulares"| && |games| != |"M. Celular"| && |games| != |"Dev. Jogos"|;
  }

  /** Mapping an already mapped label changes nothing: the enrollment-form
      labels are fixed points of the table. */
  lemma MapEnrollmentCourseIdempotent(course: string)
    ensures MapEnrollmentCourse(MapEnrollmentCourse(course)) == MapEnrollmentCourse(course)
  {
    EnrollmentLabelsFixed();
  }

  /** The table is looked up exactly: "PC Gamer" is mapped, while the same
      label in lower case is its own. */
  lemma MapEnrollmentCourseCaseSensitive()
    ensures MapEnrollmentCourse("PC Gamer") != "PC Gamer"
    ensures MapEnrollmentCourse("pc gamer") == "pc gamer"
  {
    assert "pc gamer"[0] != "PC Gamer"[0] && "pc gamer"[0] != "Robótica"[0];
    assert "pc gamer"[0] != "Manutenção de Celulares"[0] && "pc gamer"[0] != "M. Celular"[0];
    assert "pc gamer"[0] != "Dev. Jogos"[0];
  }

  /** `cursos_correspondentes`: whether the attendance course `freq` is the
      enrollment course `insc`. Both are normalised; they match if they are
      equal, if one of the keyword rules accepts them, or if the table's
      label for `freq` normalises to `insc`. */
  predicate CoursesMatch(freq: string, insc: string) {
    var f := Normalize(freq);
    var i := Normalize(insc);
    || f == i
    || KeywordRules(f, i)
    || Normalize(MapEnrollmentCourse(freq)) == i
  }

  /** Every course matches itself. */
  lemma CoursesMatchReflexive(course: string)
    ensures CoursesMatch(course, course)
  {
  }

  /** Each attendance label of the table matches its enrollment-form label,
      whatever the keyword rules say. */
  lemma TableLabelsMatch(freq: string)
    requires freq in EnrollmentLabel
    ensures CoursesMatch(freq, EnrollmentLabel[freq])
  {
  }

  /** Labels with "celular" in their normalised form match each other, in
      both directions. */
  lemma PhoneCoursesMatch(a: string, b: string)
    requires Contains(Normalize(a), "celular") && Contains(Normalize(b), "celular")
    ensures CoursesMatch(a, b) && CoursesMatch(b, a)
  {
  }

  /** The keyword rules of `cursos_correspondentes`, on normalised labels. */
  predicate KeywordRules(f: string, i: string) {
    || (Contains(f, "pcgamer") && Contains(i, "pcgamer"))
    || (Contains(f, "robotica") && Contains(i, "robotica"))
    || ((Contains(f, "celular") || f == "m.celular") && Contains(i, "celular"))
    || ((Contains(i, "celular") || i == "m.celular") && Contains(f, "celular"))
    || ((f == "dev.jogos" || Contains(f, "desenvolvimentodejogos"))
        && (Contains(i, "desenvolvimentodejogos") || i == "dev.jogos"))
    || ((Contains(f, "robotica,programacao") || Contains(f, "roboticaprogramacao")) && Contains(i, "robotica"))
    || (f == "m.celular" && Contains(i, "manutencao"))
    || (Contains(f, "manutencaocelular") && i == "m.celular")
    || (f == "dev.jogos" && Contains(i, "jogos"))
  }

  lemma RoboticsInsideCombined()
    ensures Contains("robotica,programacao", "robotica")
    ensures Contains("roboticaprogramacao", "robotica")
  {
    ContainsPrefix("robotica", ",programacao");
    assert "robotica" + ",programacao" == "robotica,programacao";
    ContainsPrefix("robotica", "programacao");
    assert "robotica" + "programacao" == "roboticaprogramacao";
  }

  lemma PhoneInsideRepair()
    ensures Contains("manutencaocelular", "celular")
  {
    ContainsSuffix("manutencao", "celular");
    assert "manutencao" + "celular" == "manutencaocelular";
  }

  lemma PhoneInsideShort()
    ensures Contains("m.celular", "celular")
  {
    ContainsSuffix("m.", "celular");
    assert "m." + "celular" == "m.celular";
  }

  /** A label that mentions none of the catalogue keywords passes no keyword
      rule. */
  lemma NoKeywordRule(f: string, i: string)
    requires !Contains(f, "pcgamer") && !Contains(f, "robotica") && !Contains(f, "celular")
    requires !Contains(f, "desenvolvimentodejogos") && f != "dev.jogos"
    ensures !KeywordRules(f, i)
  {
    RoboticsInsideCombined();
    PhoneInsideRepair();
    PhoneInsideShort();
    if Contains(f, "robotica,programacao") {
      ContainsTransitive(f, "robotica,programacao", "robotica");
    }
    if Contains(f, "roboticaprogramacao") {
      ContainsTransitive(f, "roboticaprogramacao", "robotica");
    }
    if Contains(f, "manutencaocelular") {
      ContainsTransitive(f, "manutencaocelular", "celular");
    }
  }

  /** For an attendance course outside the catalogue (its normalised label
      mentions none of the catalogue keywords and the table does not list
      it), matching is exactly equality of the normalised labels. */
  lemma UncataloguedCoursesMatchExactly(freq: string, insc: string)
    requires var f := Normalize(freq);
      && !Contains(f, "pcgamer") && !Contains(f, "robotica") && !Contains(f, "celular")
      && !Contains(f, "desenvolvimentodejogos") && f != "dev.jogos"
    requires freq !in EnrollmentLabel
    ensures CoursesMatch(freq, insc) <==> Normalize(freq) == Normalize(insc)
  {
    NoKeywordRule(Normalize(freq), Normalize(insc));
  }
}
