/**
 * The configuration store: an INI-style mapping from section names to
 * option/value maps (clilib/config.py, over Python 2's SafeConfigParser).
 * Reading and writing the file are not modelled; the store is its
 * in-memory sections, and `check_section`, the hook a concrete store
 * supplies, is a function fixed when the store is made: None accepts the
 * section, Some(message) is the `UserWarning` it raises.
 */
module ConfigStore {
  import opened Wrappers

  /** section name -> option name -> value */
  type Sections = map<string, map<string, string>>

  /** The exceptions ConfigParser and the `check_section` hook raise. */
  datatype StoreError =
    | NoSectionError(section: string)
    | NoOptionError(section: string, option: string)
    | DuplicateSectionError(section: string)
    | HookWarning(message: string)

  class Store {
    var sections: Sections
    /** `check_section`: None accepts the section name, Some(message) raises `UserWarning(message)`. */
    const checkSection: string -> Option<string>

    constructor (sections: Sections, checkSection: string -> Option<string>)
      ensures this.sections == sections && this.checkSection == checkSection
    {
      this.sections := sections;
      this.checkSection := checkSection;
    }

    predicate HasSection(section: string)
      reads this
    {
      section in sections
    }

    predicate HasOption(section: string, option: string)
      reads this
    {
      section in sections && option in sections[section]
    }

    /** `get(section, option)`. */
    function Get(section: string, option: string): (r: Result<string, StoreError>)
      reads this
      ensures r.Success? <==> HasOption(section, option)
      ensures r.Success? ==> r.value == sections[section][option]
      ensures section !in sections ==> r == Failure(NoSectionError(section))
      ensures section in sections && option !in sections[section] ==> r == Failure(NoOptionError(section, option))
    {
      if section !in sections then Failure(NoSectionError(section))
      else if option !in sections[section] then Failure(NoOptionError(section, option))
      else Success(sections[section][option])
    }

    /** `items(section)`, as a map. */
    function Items(section: string): (r: Result<map<string, string>, StoreError>)
      reads this
      ensures r.Success? <==> section in sections
      ensures r.Success? ==> r.value == sections[section]
      ensures r.Failure? ==> r.error == NoSectionError(section)
    {
      if section in sections then Success(sections[section]) else Failure(NoSectionError(section))
    }

    /** `add_section(section)`: the hook decides first, then a duplicate is refused. */
    method AddSection(section: string) returns (err: Option<StoreError>)
      modifies this
      ensures checkSection(section).Some? ==>
        err == Some(HookWarning(checkSection(section).value)) && sections == old(sections)
      ensures checkSection(section).None? && section in old(sections) ==>
        err == Some(DuplicateSectionError(section)) && sections == old(sections)
      ensures checkSection(section).None? && section !in old(sections) ==>
        err == None && sections == old(sections)[section := map[]]
    {
      var verdict := checkSection(section);
      if verdict.Some? {
        return Some(HookWarning(verdict.value));
      }
      if section in sections {
        return Some(DuplicateSectionError(section));
      }
      sections := sections[section := map[]];
      return None;
    }

    /** `set(section, option, value)`. */
    method Set(section: string, option: string, value: string) returns (err: Option<StoreError>)
      modifies this
      ensures section in old(sections) ==>
        err == None && sections == old(sections)[section := old(sections)[section][option := value]]
      ensures section !in old(sections) ==> err == Some(NoSectionError(section)) && sections == old(sections)
    {
      if section !in sections {
        return Some(NoSectionError(section));
      }
      sections := sections[section := sections[section][option := value]];
      return None;
    }

    /** `remove_option(section, option)`: reports whether the option existed. */
    method RemoveOption(section: string, option: string) returns (r: Result<bool, StoreError>)
      modifies this
      ensures section !in old(sections) ==> r == Failure(NoSectionError(section)) && sections == old(sections)
      ensures section in old(sections) ==>
        && r == Success(option in old(sections)[section])
        && sections == old(sections)[section := old(sections)[section] - {option}]
    {
      if section !in sections {
        return Failure(NoSectionError(section));
      }
      var existed := option in sections[section];
      sections := sections[section := sections[section] - {option}];
      return Success(existed);
    }

    /** `remove_section(section)`: reports whether the section existed. */
    method RemoveSection(section: string) returns (existed: bool)
      modifies this
      ensures existed == (section in old(sections))
      ensures sections == old(sections) - {section}
    {
      existed := section in sections;
      sections := sections - {section};
    }
  }
}
