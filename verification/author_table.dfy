/**
 * The author table of `lib/authorData.ts`: ten records, the map built from
 * them and `getAuthorInfoByName`.
 */
module AuthorTable {
  import opened Options
  import opened Text
  import Seqs
  import opened AuthorData
  import opened Authors

  const AUTHOR_DATA: seq<AuthorInfo> := [
    AuthorInfo("Pratik Mahalle",
      "Hey, I am Pratik currently working as a Developer Relation at Keploy. I love building communities and talking to people.",
      "https://www.linkedin.com/in/mahalle-pratik/", ""),
    AuthorInfo("Himanshu Mandhyan",
      "With 1.5+ years of experience, I specialize in driving organic traffic growth and enhancing online visibility for a range of businesses.",
      "https://www.linkedin.com/in/himanshu-mandhyan/", ""),
    AuthorInfo("Ayush Gupta",
      "Hi everyone \U{1F44B} I am an open-source contributor with a DevOps skillset. Comfortable across Windows and Linux.",
      "https://www.linkedin.com/in/ayush-gupta-523b45199/", ""),
    AuthorInfo("Subashini Kumaravel",
      "Final year AI & Data Science student, passionate about Python, machine learning, and data analysis.",
      "https://www.linkedin.com/in/subashini-kumaravel-4866312a4/", ""),
    AuthorInfo("Keploy Team",
      "Keploy is a developer-centric API testing tool that creates tests along with built-in mocks, faster than unit tests. It records API and DB calls and replays them during testing.",
      "", ""),
    AuthorInfo("Monasri Mohandoss",
      "Final-year B.Tech AI & DS student. Passionate about agentic automation, AI apps, and predictive ML models.",
      "https://www.linkedin.com/in/monasri-mohandoss-2131b4252/", ""),
    AuthorInfo("Amaan Bhati",
      "CSE student and web developer focused on JavaScript, React, Tailwind, TypeScript, Next.js, and Three.js.",
      "https://www.linkedin.com/in/amaan-bhati/", ""),
    AuthorInfo("Neha Gupta",
      "Building Keploy.io, an eBPF-based open source framework to generate test cases and data stubs from API calls.",
      "https://www.linkedin.com/posts/neha-gup", ""),
    AuthorInfo("Sarthak Shyngle",
      "GSoC mentor focused on helping developers release efficiently with Keploy.",
      "", ""),
    AuthorInfo("Yash Khare",
      "Software Engineer at Keploy and CNCF maintainer, passionate about Kubernetes and open source.",
      "https://in.linkedin.com/in/khareyash05", "")
  ]

  /** Each name starts with a capital letter and a small one. */
  lemma AuthorNameShape(i: nat)
    requires i < |AUTHOR_DATA|
    ensures var a := AUTHOR_DATA[i].name;
      |a| >= 2 && IsUpper(a[0]) && IsLower(a[1])
  {
  }

  /** No two names start with the same two characters. */
  lemma AuthorNamesStart(i: nat, j: nat)
    requires i < j < |AUTHOR_DATA|
    ensures var a, b := AUTHOR_DATA[i].name, AUTHOR_DATA[j].name;
      |a| >= 2 && |b| >= 2 && (a[0] != b[0] || a[1] != b[1])
  {
  }

  /** The ten names normalise to ten different keys. */
  lemma AuthorNameKeysDiffer(i: nat, j: nat)
    requires i < j < |AUTHOR_DATA|
    ensures NormalizeName(AUTHOR_DATA[i].name) != NormalizeName(AUTHOR_DATA[j].name)
  {
    AuthorNameShape(i);
    AuthorNameShape(j);
    AuthorNamesStart(i, j);
    NormalizeNamePrefix(AUTHOR_DATA[i].name);
    NormalizeNamePrefix(AUTHOR_DATA[j].name);
  }

  /** The table files its entries under ten different keys. */
  lemma AuthorKeysUnique()
    ensures Seqs.UniqueKeys(AUTHOR_DATA, NameKey)
  {
    forall i, j | 0 <= i < j < |AUTHOR_DATA| ensures NameKey(AUTHOR_DATA[i]) != NameKey(AUTHOR_DATA[j]) {
      AuthorNameKeysDiffer(i, j);
    }
  }

  /** `authorMap`. */
  function AuthorMap(): map<string, AuthorInfo>
  {
    EntriesMap(AUTHOR_DATA)
  }

  /** `getAuthorInfoByName`: `None` stands for `undefined`. */
  function GetAuthorInfoByName(name: string): Option<AuthorInfo>
  {
    Lookup(AuthorMap(), name)
  }

  /** Looking up an author by the name in their own entry finds that entry. */
  lemma LookupOwnName(i: nat)
    requires i < |AUTHOR_DATA|
    ensures GetAuthorInfoByName(AUTHOR_DATA[i].name) == Some(AUTHOR_DATA[i])
  {
    AuthorKeysUnique();
    LookupOwnEntry(AUTHOR_DATA, i);
  }
}
