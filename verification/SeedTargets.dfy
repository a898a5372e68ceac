/** Which tables the seed expander and its verifier look at, and how many rows each one wants. */
module SeedTargets {

  const EXCLUDED_TABLES: set<string> := {
    "_prisma_migrations", "authentication_user_sessions", "authentication_refresh_token_families",
    "authentication_refresh_tokens", "authentication_password_reset_tokens",
    "authentication_user_two_factor_challenges", "authentication_user_two_factor_recovery_codes",
    "authentication_user_credentials", "authentication_user_security", "system_integration_credentials"
  }

  const INCLUDED_PREFIXES: seq<string> := [
    "authorization_", "agent_", "property_", "crm_", "sales_", "matching_", "match_", "recommendation",
    "content_", "automation_", "system_", "audit_"
  ]

  const REFERENCE_TABLES: set<string> := {
    "property_types", "property_categories", "property_subcategories", "countries", "provinces", "cities",
    "districts", "subdistricts", "crm_lead_statuses", "crm_lead_status_transitions", "crm_lead_sources",
    "crm_lead_campaigns", "crm_lead_types", "crm_lead_tags", "crm_lead_score_rules", "sales_pipelines",
    "sales_pipeline_stages", "sales_lost_reasons", "sales_commission_rules"
  }

  const TARGETS_OF_5: set<string> := { "authorization_roles" }
  const TARGETS_OF_15: set<string> := { "sales_viewings" }
  const TARGETS_OF_30: set<string> := { "crm_activities" }
  const TARGETS_OF_50: set<string> := { "system_activities", "audit_logs" }

  const TARGETS_OF_20: set<string> := {
    "properties", "crm_contacts", "crm_leads", "crm_communications", "sales_opportunities", "match_scores",
    "automation_notifications", "automation_notification_deliveries", "automation_workflow_executions",
    "automation_action_executions", "system_webhook_deliveries"
  }

  const TARGETS_OF_10: set<string> := {
    "authorization_user_roles", "authorization_role_permissions", "agent_profiles", "crm_inquiries",
    "sales_negotiations", "sales_offers", "sales_deals", "sales_deal_items", "sales_closings",
    "sales_commissions", "property_preferences", "recommendations", "recommendation_items",
    "recommendation_histories", "match_feedback", "automation_workflows", "automation_workflow_versions",
    "content_articles", "content_pages", "content_banners", "content_faqs", "content_testimonials",
    "system_webhook_subscriptions", "system_import_jobs", "system_export_jobs"
  }

  predicate TableIncluded(table: string) {
    table !in EXCLUDED_TABLES && exists prefix | prefix in INCLUDED_PREFIXES :: prefix <= table
  }

  /** Both files hold the same table of overrides; they differ in the default. */
  function TargetFor(table: string, default: nat): nat {
    if table in REFERENCE_TABLES then 1
    else if table in TARGETS_OF_5 then 5
    else if table in TARGETS_OF_10 then 10
    else if table in TARGETS_OF_15 then 15
    else if table in TARGETS_OF_20 then 20
    else if table in TARGETS_OF_30 then 30
    else if table in TARGETS_OF_50 then 50
    else default
  }

  const VERIFIER_DEFAULT: nat := 10
}
